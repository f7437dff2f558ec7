// The key schedule and the CBC and CTR modes of aes.c, against section 5.2 of FIPS 197 and
// sections 6.2 and 6.5 of NIST SP 800-38A.
module AesModes {
  import opened Arith
  import opened AesTables
  import opened AesCipher

  // ----- the key schedule -----

  // Rcon[i]
  function Rcon(i: nat): bv8
    requires i <= 10
  {
    if i == 0 then 0x8d else if i == 1 then 0x01 else if i == 2 then 0x02 else if i == 3 then 0x04
    else if i == 4 then 0x08 else if i == 5 then 0x10 else if i == 6 then 0x20 else if i == 7 then 0x40
    else if i == 8 then 0x80 else if i == 9 then 0x1b else 0x36
  }

  // Rcon[i] is {02} to the power i - 1.
  lemma RconPowers(i: nat)
    requires i < 10
    ensures Rcon(1) == 1 && Rcon(i + 1) == Xtime(Rcon(i))
  {
  }

  ghost function AddWords(a: Column, b: Column): Column {
    [Add(a[0], b[0]), Add(a[1], b[1]), Add(a[2], b[2]), Add(a[3], b[3])]
  }

  // SubWord(RotWord(t)) xor Rcon at the start of each round key, t elsewhere
  ghost function Temp(t: Column, i: nat): Column
    requires 4 <= i < 44
  {
    if i % 4 == 0 then [Add(Sbox(t[1]), Rcon(i / 4)), Sbox(t[2]), Sbox(t[3]), Sbox(t[0])] else t
  }

  // the first n words of the schedule (section 5.2)
  ghost function Schedule(key: Block, n: nat): (w: seq<bv8>)
    requires 4 <= n <= 44
    ensures |w| == 4 * n
    decreases n
  {
    if n == 4 then key
    else
      var w := Schedule(key, n - 1);
      w + AddWords(w[4 * (n - 5)..4 * (n - 4)], Temp(w[4 * (n - 2)..], n - 1))
  }

  lemma AddWordsCancel(a: Column, b: Column, t: Column)
    requires AddWords(a, t) == AddWords(b, t)
    ensures a == b
  {
    hide Add;
    forall k | 0 <= k < 4 ensures a[k] == b[k] {
      assert AddWords(a, t)[k] == Add(a[k], t[k]) && AddWords(b, t)[k] == Add(b[k], t[k]);
      AddLaws(a[k], t[k], t[k]);
      AddLaws(b[k], t[k], t[k]);
      AddLaws(t[k], t[k], 0);
      AddLaws(a[k], 0, 0);
      AddLaws(b[k], 0, 0);
    }
  }

  // Four consecutive words of the schedule determine the key.
  lemma {:induction false} ScheduleBackwards(j: Block, k: Block, n: nat)
    requires 4 <= n <= 44 && Schedule(j, n)[4 * (n - 4)..] == Schedule(k, n)[4 * (n - 4)..]
    ensures j == k
    decreases n
  {
    hide AddWords, Temp, Schedule;
    if n > 4 {
      ScheduleStep(j, n);
      ScheduleStep(k, n);
      WordsBackwards(Schedule(j, n - 1), Schedule(k, n - 1), n);
      ScheduleBackwards(j, k, n - 1);
    } else {
      ScheduleStart(j);
      ScheduleStart(k);
    }
  }

  lemma ScheduleStart(key: Block)
    ensures Schedule(key, 4) == key && Schedule(key, 4)[0..] == key
  {
  }

  lemma ScheduleStep(key: Block, n: nat)
    requires 4 < n <= 44
    ensures var w := Schedule(key, n - 1);
            Schedule(key, n) == w + AddWords(w[4 * (n - 5)..4 * (n - 4)], Temp(w[4 * (n - 2)..], n - 1))
  {
    hide AddWords, Temp;
  }

  lemma WordsBackwards(v: seq<bv8>, w: seq<bv8>, n: nat)
    requires 5 <= n <= 44 && |v| == |w| == 4 * (n - 1)
    requires (v + AddWords(v[4 * (n - 5)..4 * (n - 4)], Temp(v[4 * (n - 2)..], n - 1)))[4 * (n - 4)..]
          == (w + AddWords(w[4 * (n - 5)..4 * (n - 4)], Temp(w[4 * (n - 2)..], n - 1)))[4 * (n - 4)..]
    ensures v[4 * (n - 5)..] == w[4 * (n - 5)..]
  {
    hide AddWords, Temp;
    var a, b := v[4 * (n - 5)..4 * (n - 4)], w[4 * (n - 5)..4 * (n - 4)];
    var t := Temp(v[4 * (n - 2)..], n - 1);
    Cut(v, w, AddWords(a, t), AddWords(b, Temp(w[4 * (n - 2)..], n - 1)), n);
    AddWordsCancel(a, b, t);
    Rejoin(v, n);
    Rejoin(w, n);
  }

  lemma Rejoin(w: seq<bv8>, n: nat)
    requires n >= 5 && |w| == 4 * (n - 1)
    ensures w[4 * (n - 5)..] == w[4 * (n - 5)..4 * (n - 4)] + w[4 * (n - 4)..]
  {
  }

  // the last four of n words are the new word and the last three of n - 1
  lemma Cut(v: seq<bv8>, w: seq<bv8>, x: Column, y: Column, n: nat)
    requires n >= 5 && |v| == |w| == 4 * (n - 1)
    requires (v + x)[4 * (n - 4)..] == (w + y)[4 * (n - 4)..]
    ensures x == y && v[4 * (n - 4)..] == w[4 * (n - 4)..] && v[4 * (n - 2)..] == w[4 * (n - 2)..]
  {
    assert (v + x)[4 * (n - 4)..] == v[4 * (n - 4)..] + x && (w + y)[4 * (n - 4)..] == w[4 * (n - 4)..] + y;
    SameParts(v[4 * (n - 4)..], x, w[4 * (n - 4)..], y);
    assert v[4 * (n - 4)..][8..] == v[4 * (n - 2)..] && w[4 * (n - 4)..][8..] == w[4 * (n - 2)..];
  }

  lemma SameParts(a: seq<bv8>, x: seq<bv8>, b: seq<bv8>, y: seq<bv8>)
    requires a + x == b + y && |a| == |b|
    ensures a == b && x == y
  {
    assert (a + x)[..|a|] == a && (b + y)[..|a|] == b;
    assert (a + x)[|a|..] == x && (b + y)[|a|..] == y;
  }

  // the power k of {02}
  ghost function Power(k: nat): bv8 { if k == 0 then 1 else Xtime(Power(k - 1)) }

  lemma {:induction false} RconIsPower(i: nat)
    requires 1 <= i <= 10
    ensures Rcon(i) == Power(i - 1)
  {
    hide Xtime, Rcon;
    RconPowers(i - 1);
    if i > 1 {
      RconPowers(i - 2);
      RconIsPower(i - 1);
    }
  }

  // Longer schedules extend shorter ones.
  lemma {:induction false} SchedulePrefix(key: Block, m: nat, n: nat)
    requires 4 <= m <= n <= 44
    ensures Schedule(key, n)[..4 * m] == Schedule(key, m)
    decreases n
  {
    hide AddWords, Temp, Schedule;
    if m < n {
      SchedulePrefix(key, m, n - 1);
      ScheduleStep(key, n);
      var v, w := Schedule(key, n - 1), Schedule(key, n);
      assert w[..4 * m] == v[..4 * m];
    }
  }

  // byte c of the word added to word i - 4, for the word t before word i: the byte itself, or the next byte in the
  // word substituted, marked with the power of {02} in the first byte
  lemma TempByte(t: Column, i: nat, c: nat)
    requires 4 <= i < 44 && c < 4
    ensures i % 4 != 0 ==> Temp(t, i)[c] == t[c]
    ensures i % 4 == 0 && c > 0 ==> Temp(t, i)[c] == Sbox(t[(c + 1) % 4])
    ensures i % 4 == 0 ==> Temp(t, i)[0] == Add(Sbox(t[1]), Power(i / 4 - 1))
  {
    hide Sbox, Rcon, Power, Add;
    if i % 4 == 0 {
      RconIsPower(i / 4);
    }
  }

  lemma AddWordsAt(a: Column, b: Column, c: nat)
    requires c < 4
    ensures AddWords(a, b)[c] == Add(a[c], b[c])
  {
    hide Add;
  }

  // Byte n of the schedule w (section 5.2): the byte of the word four before, plus that of the word before, or in the
  // first word of a round key the next byte of the word before, substituted and marked with a power of {02}.
  ghost predicate ScheduleByte(w: seq<bv8>, n: nat)
    requires 16 <= n < |w|
  {
    if n % 16 >= 4 then w[n] == w[n - 16] ^ w[n - 4]
    else if n % 16 == 3 then w[n] == w[n - 16] ^ Sbox(w[n - 7])
    else if n % 16 > 0 then w[n] == w[n - 16] ^ Sbox(w[n - 3])
    else w[n] == w[n - 16] ^ (Sbox(w[n - 3]) ^ Power(n / 16 - 1))
  }

  // the same with the function for addition
  ghost predicate AddedByte(w: seq<bv8>, n: nat)
    requires 16 <= n < |w|
  {
    if n % 16 >= 4 then w[n] == Add(w[n - 16], w[n - 4])
    else if n % 16 == 3 then w[n] == Add(w[n - 16], Sbox(w[n - 7]))
    else if n % 16 > 0 then w[n] == Add(w[n - 16], Sbox(w[n - 3]))
    else w[n] == Add(w[n - 16], Add(Sbox(w[n - 3]), Power(n / 16 - 1)))
  }

  lemma WrittenOut(w: seq<bv8>, n: nat)
    requires 16 <= n < |w| && AddedByte(w, n)
    ensures ScheduleByte(w, n)
  {
    hide Sbox, Power, Add;
    if n % 16 >= 4 {
      AddIs(w[n - 16], w[n - 4]);
    } else if n % 16 == 3 {
      AddIs(w[n - 16], Sbox(w[n - 7]));
    } else if n % 16 > 0 {
      AddIs(w[n - 16], Sbox(w[n - 3]));
    } else {
      AddIs(Sbox(w[n - 3]), Power(n / 16 - 1));
      AddIs(w[n - 16], Add(Sbox(w[n - 3]), Power(n / 16 - 1)));
    }
  }

  lemma ScheduleBytes(key: Block, w: seq<bv8>, n: nat)
    requires 16 <= n < 176 && w == Schedule(key, 44)
    ensures w[..16] == key && ScheduleByte(w, n)
  {
    hide AddWords, Temp, Schedule, Sbox, Power, Add;
    var i, c := n / 4, n % 4;
    ByteNumber(n);
    SchedulePrefix(key, 4, 44);
    ScheduleStart(key);
    SchedulePrefix(key, i, 44);
    SchedulePrefix(key, i + 1, 44);
    ScheduleStep(key, i + 1);
    var v := w[..4 * i];
    var a, t := v[4 * (i - 4)..4 * (i - 3)], v[4 * (i - 1)..];
    TakeWord(w, v, a, t, AddWords(a, Temp(t, i)), i);
    TempByte(t, i, c);
    AddWordsAt(a, Temp(t, i), c);
    SameByte(w, a, t, Temp(t, i), i, c, n);
    hide AddedByte;
    WrittenOut(w, n);
  }

  lemma SameByte(w: seq<bv8>, a: Column, t: Column, u: Column, i: nat, c: nat, n: nat)
    requires 4 <= i < 44 && c < 4 && n == 4 * i + c && n < |w| && w[n] == Add(a[c], u[c])
    requires forall c: nat :: c < 4 ==> w[4 * (i - 4) + c] == a[c]
    requires forall c: nat :: c < 4 ==> w[4 * (i - 1) + c] == t[c]
    requires i % 4 != 0 ==> u[c] == t[c]
    requires i % 4 == 0 && c > 0 ==> u[c] == Sbox(t[(c + 1) % 4])
    requires i % 4 == 0 && c == 0 ==> u[0] == Add(Sbox(t[1]), Power(i / 4 - 1))
    ensures AddedByte(w, n)
  {
    hide Sbox, Power, Add;
    assert w[n - 16] == a[c];
    if i % 4 != 0 {
      assert w[n - 4] == t[c];
    } else if c == 3 {
      assert w[n - 7] == t[0];
    } else {
      assert w[n - 3] == t[c + 1];
    }
  }

  // the bytes of three words of the schedule
  lemma TakeWord(w: seq<bv8>, v: seq<bv8>, a: Column, t: Column, u: Column, i: nat)
    requires 4 <= i && 4 * i + 4 <= |w| && v == w[..4 * i] && w[..4 * i + 4] == v + u
    requires a == v[4 * (i - 4)..4 * (i - 3)] && t == v[4 * (i - 1)..]
    ensures forall c: nat :: c < 4 ==> w[4 * i + c] == u[c]
    ensures forall c: nat :: c < 4 ==> w[4 * (i - 4) + c] == a[c]
    ensures forall c: nat :: c < 4 ==> w[4 * (i - 1) + c] == t[c]
  {
    assert forall c: nat :: c < 4 ==> u[c] == (v + u)[4 * i + c];
  }

  // the word tempa of the source: rotated, substituted and marked with the round constant every fourth time
  method TempWord(RoundKey: array<bv8>, i: nat) returns (tempa: array<bv8>)
    requires RoundKey.Length == 176 && 4 <= i < 44
    ensures fresh(tempa) && tempa.Length == 4 && tempa[..] == Temp(RoundKey[4 * (i - 1)..4 * i], i)
  {
    hide Sbox, Rcon, Add;
    var k := (i - 1) * 4;
    tempa := new bv8[] [RoundKey[k + 0], RoundKey[k + 1], RoundKey[k + 2], RoundKey[k + 3]];
    ghost var t := RoundKey[4 * (i - 1)..4 * i];
    assert tempa[..] == t;
    if i % 4 == 0 {
      var first := tempa[0];
      tempa[0] := tempa[1];
      tempa[1] := tempa[2];
      tempa[2] := tempa[3];
      tempa[3] := first;
      tempa[0] := Sbox(tempa[0]);
      tempa[1] := Sbox(tempa[1]);
      tempa[2] := Sbox(tempa[2]);
      tempa[3] := Sbox(tempa[3]);
      tempa[0] := Add(tempa[0], Rcon(i / 4));
    }
  }

  // word i of the schedule
  method ExpandWord(RoundKey: array<bv8>, i: nat)
    requires RoundKey.Length == 176 && 4 <= i < 44
    modifies RoundKey
    ensures RoundKey[..4 * i] == old(RoundKey[..4 * i])
    ensures var w := old(RoundKey[..4 * i]);
            RoundKey[4 * i..4 * i + 4] == AddWords(w[4 * (i - 4)..4 * (i - 3)], Temp(w[4 * (i - 1)..], i))
  {
    hide Temp, Add;
    var tempa := TempWord(RoundKey, i);
    ghost var w, t := RoundKey[..4 * i], tempa[..];
    assert w[4 * (i - 1)..] == RoundKey[4 * (i - 1)..4 * i];
    var j := i * 4;
    var k := (i - 4) * 4;
    RoundKey[j + 0] := Add(RoundKey[k + 0], tempa[0]);
    RoundKey[j + 1] := Add(RoundKey[k + 1], tempa[1]);
    RoundKey[j + 2] := Add(RoundKey[k + 2], tempa[2]);
    RoundKey[j + 3] := Add(RoundKey[k + 3], tempa[3]);
    NewWord(w, RoundKey[..], w[k..k + 4], t, i);
  }

  lemma NewWord(w: seq<bv8>, s: seq<bv8>, a: Column, t: Column, i: nat)
    requires 4 <= i && |w| == 4 * i && 4 * i + 4 <= |s| && a == w[4 * (i - 4)..4 * (i - 3)]
    requires s[4 * i] == Add(w[4 * (i - 4)], t[0]) && s[4 * i + 1] == Add(w[4 * (i - 4) + 1], t[1])
    requires s[4 * i + 2] == Add(w[4 * (i - 4) + 2], t[2]) && s[4 * i + 3] == Add(w[4 * (i - 4) + 3], t[3])
    ensures s[4 * i..4 * i + 4] == AddWords(a, t)
  {
    hide Add;
  }

  // KeyExpansion
  method KeyExpansion(RoundKey: array<bv8>, Key: array<bv8>)
    requires RoundKey.Length == 176 && Key.Length >= 16 && RoundKey != Key
    modifies RoundKey
    ensures RoundKey[..] == Schedule(Key[..16], 44) && RoundKey[..16] == Key[..16]
    ensures forall n: nat :: 16 <= n < 176 ==> ScheduleByte(RoundKey[..], n)
  {
    hide Schedule, ScheduleByte;
    ExpandKey(RoundKey, Key);
    ghost var key, w := Key[..16], RoundKey[..];
    ScheduleBytes(key, w, 16);
    forall n: nat | 16 <= n < 176 ensures ScheduleByte(w, n) {
      ScheduleBytes(key, w, n);
    }
  }

  lemma ByteNumber(n: nat)
    requires 16 <= n < 176
    ensures 4 <= n / 4 < 44 && n / 4 / 4 == n / 16 && (n / 4 % 4 == 0 <==> n % 16 < 4) && n == 4 * (n / 4) + n % 4
    ensures n % 16 < 4 ==> n % 4 == n % 16
  {
  }

  // the two loops of KeyExpansion
  method ExpandKey(RoundKey: array<bv8>, Key: array<bv8>)
    requires RoundKey.Length == 176 && Key.Length >= 16 && RoundKey != Key
    modifies RoundKey
    ensures RoundKey[..] == Schedule(Key[..16], 44)
  {
    hide AddWords, Temp;
    for i := 0 to 4
      invariant forall n :: 0 <= n < 4 * i ==> RoundKey[n] == Key[n]
    {
      RoundKey[(i * 4) + 0] := Key[(i * 4) + 0];
      RoundKey[(i * 4) + 1] := Key[(i * 4) + 1];
      RoundKey[(i * 4) + 2] := Key[(i * 4) + 2];
      RoundKey[(i * 4) + 3] := Key[(i * 4) + 3];
    }
    ghost var key := Key[..16];
    assert RoundKey[..4 * 4] == key;
    for i := 4 to 44
      invariant Key[..16] == key
      invariant RoundKey[..4 * i] == Schedule(key, i)
    {
      ExpandWord(RoundKey, i);
      assert RoundKey[..4 * (i + 1)] == RoundKey[..4 * i] + RoundKey[4 * i..4 * i + 4];
    }
    assert RoundKey[..4 * 44] == RoundKey[..];
  }

  // ----- CBC (section 6.2) -----

  ghost function AddBlocks(a: Block, b: Block): Block {
    seq(16, k requires 0 <= k < 16 => Add(a[k], b[k]))
  }

  lemma AddBlocksTwice(a: Block, b: Block)
    ensures AddBlocks(AddBlocks(a, b), b) == a
  {
    hide Add;
    forall k | 0 <= k < 16 ensures AddBlocks(AddBlocks(a, b), b)[k] == a[k] {
      AddLaws(a[k], b[k], b[k]);
      AddLaws(b[k], b[k], 0);
      AddLaws(a[k], 0, 0);
    }
  }

  // f encrypts a block; g decrypts one.
  ghost function CbcEncrypted(f: Block -> Block, iv: Block, p: seq<bv8>): (c: seq<bv8>)
    requires |p| % 16 == 0
    ensures |c| == |p|
    decreases |p|
  {
    if |p| == 0 then []
    else
      var c := f(AddBlocks(p[..16], iv));
      c + CbcEncrypted(f, c, p[16..])
  }

  ghost function CbcDecrypted(g: Block -> Block, iv: Block, c: seq<bv8>): (p: seq<bv8>)
    requires |c| % 16 == 0
    ensures |p| == |c|
    decreases |c|
  {
    if |c| == 0 then [] else AddBlocks(g(c[..16]), iv) + CbcDecrypted(g, c[..16], c[16..])
  }

  // the block cipher under the round keys w, and its inverse
  ghost function Enc(w: Keys): Block -> Block { (b: Block) => Cipher(b, w) }

  ghost function Dec(w: Keys): Block -> Block { (b: Block) => InvCipher(b, w) }

  // Decrypting undoes encrypting, for any whole number of blocks.
  lemma {:induction false} CbcRoundTrip(iv: Block, p: seq<bv8>, w: Keys)
    requires |p| % 16 == 0
    ensures CbcDecrypted(Dec(w), iv, CbcEncrypted(Enc(w), iv, p)) == p
    decreases |p|
  {
    hide Cipher, InvCipher, AddBlocks;
    if |p| > 0 {
      var b := AddBlocks(p[..16], iv);
      var c := Cipher(b, w);
      var e := CbcEncrypted(Enc(w), iv, p);
      assert e[..16] == c && e[16..] == CbcEncrypted(Enc(w), c, p[16..]);
      InvCipherUndoes(b, w);
      AddBlocksTwice(p[..16], iv);
      CbcRoundTrip(c, p[16..], w);
    }
  }

  // ----- CBC, block by block -----

  lemma AddBlocksIs(a: Block, b: Block)
    ensures AddBlocks(a, b) == seq(16, k requires 0 <= k < 16 => a[k] ^ b[k])
  {
    var c: Block := seq(16, k requires 0 <= k < 16 => a[k] ^ b[k]);
    forall k | 0 <= k < 16 ensures AddBlocks(a, b)[k] == c[k] {
      AddIs(a[k], b[k]);
    }
  }

  // Block n of the ciphertext c is the cipher of block n of p, xored with the ciphertext block before it or with iv.
  ghost predicate EncryptedBlock(w: Keys, iv: Block, p: seq<bv8>, c: seq<bv8>, n: nat)
    requires 16 * n + 16 <= |p| == |c|
  {
    c[16 * n..16 * n + 16]
    == Cipher(seq(16, k requires 0 <= k < 16 => p[16 * n + k] ^ (if n == 0 then iv[k] else c[16 * n - 16 + k])), w)
  }

  // Block n of the plaintext p is the inverse cipher of block n of c, xored with the ciphertext block before it or
  // with iv.
  ghost predicate DecryptedBlock(w: Keys, iv: Block, c: seq<bv8>, p: seq<bv8>, n: nat)
    requires 16 * n + 16 <= |p| == |c|
  {
    p[16 * n..16 * n + 16]
    == seq(16, k requires 0 <= k < 16 => InvCipher(c[16 * n..16 * n + 16], w)[k]
                                         ^ (if n == 0 then iv[k] else c[16 * n - 16 + k]))
  }

  // the block before block n
  ghost function Before(iv: Block, c: seq<bv8>, n: nat): Block
    requires 16 * n <= |c|
  {
    if n == 0 then iv else c[16 * n - 16..16 * n]
  }

  lemma {:induction false} CbcEncryptedAt(f: Block -> Block, iv: Block, p: seq<bv8>, n: nat)
    requires |p| % 16 == 0 && 16 * n + 16 <= |p|
    ensures var c := CbcEncrypted(f, iv, p);
            c[16 * n..16 * n + 16] == f(AddBlocks(p[16 * n..16 * n + 16], Before(iv, c, n)))
    decreases n
  {
    hide AddBlocks, CbcEncrypted;
    var h, t := p[..16], p[16..];
    assert p == h + t;
    EncryptedStep(f, iv, p, h, t);
    var b: Block := f(AddBlocks(h, iv));
    var c, d := CbcEncrypted(f, iv, p), CbcEncrypted(f, b, t);
    if n > 0 {
      CbcEncryptedAt(f, b, t, n - 1);
      Shifted(h, t, n);
      Shifted(b, d, n);
      BeforeShifted(iv, b, d, n);
    }
  }

  lemma Behind16(h: Block, t: seq<bv8>, i: nat, j: nat)
    requires 16 <= i <= j <= 16 + |t|
    ensures (h + t)[i..j] == t[i - 16..j - 16]
  {
  }

  lemma Shifted(h: Block, t: seq<bv8>, n: nat)
    requires n > 0 && 16 * n <= |t|
    ensures (h + t)[16 * n..16 * n + 16] == t[16 * (n - 1)..16 * (n - 1) + 16]
  {
    Behind16(h, t, 16 * n, 16 * n + 16);
  }

  lemma BeforeShifted(iv: Block, b: Block, d: seq<bv8>, n: nat)
    requires n > 0 && 16 * n <= |d| + 16
    ensures Before(iv, b + d, n) == Before(b, d, n - 1)
  {
    if n == 1 {
      assert (b + d)[0..16] == b;
    } else {
      Behind16(b, d, 16 * n - 16, 16 * n);
    }
  }

  lemma {:induction false} CbcDecryptedAt(g: Block -> Block, iv: Block, c: seq<bv8>, n: nat)
    requires |c| % 16 == 0 && 16 * n + 16 <= |c|
    ensures CbcDecrypted(g, iv, c)[16 * n..16 * n + 16] == AddBlocks(g(c[16 * n..16 * n + 16]), Before(iv, c, n))
    decreases n
  {
    hide AddBlocks, CbcDecrypted;
    var h, t := c[..16], c[16..];
    assert c == h + t;
    DecryptedStep(g, iv, c, h, t);
    if n > 0 {
      CbcDecryptedAt(g, h, t, n - 1);
      Shifted(h, t, n);
      Shifted(AddBlocks(g(h), iv), CbcDecrypted(g, h, t), n);
      BeforeShifted(iv, h, t, n);
    }
  }

  lemma SameXor(a: Block, b: Block, p: seq<bv8>, iv: Block, c: seq<bv8>, n: nat)
    requires 16 * n + 16 <= |p| == |c| && a == p[16 * n..16 * n + 16] && b == Before(iv, c, n)
    ensures AddBlocks(a, b)
         == seq(16, k requires 0 <= k < 16 => p[16 * n + k] ^ (if n == 0 then iv[k] else c[16 * n - 16 + k]))
  {
    hide AddBlocks;
    AddBlocksIs(a, b);
  }

  lemma EncryptedBlocks(w: Keys, iv: Block, p: seq<bv8>, c: seq<bv8>, n: nat)
    requires |p| % 16 == 0 && 16 * n + 16 <= |p| && c == CbcEncrypted(Enc(w), iv, p)
    ensures EncryptedBlock(w, iv, p, c, n)
  {
    hide AddBlocks, CbcEncrypted, Cipher, Before;
    CbcEncryptedAt(Enc(w), iv, p, n);
    SameXor(p[16 * n..16 * n + 16], Before(iv, c, n), p, iv, c, n);
  }

  lemma DecryptedBlocks(w: Keys, iv: Block, c: seq<bv8>, p: seq<bv8>, n: nat)
    requires |c| % 16 == 0 && 16 * n + 16 <= |c| && p == CbcDecrypted(Dec(w), iv, c)
    ensures DecryptedBlock(w, iv, c, p, n)
  {
    hide AddBlocks, CbcDecrypted, InvCipher;
    CbcDecryptedAt(Dec(w), iv, c, n);
    AddBlocksIs(InvCipher(c[16 * n..16 * n + 16], w), Before(iv, c, n));
  }

  // the chaining value after a ciphertext
  ghost function LastBlock(iv: Block, c: seq<bv8>): Block
    requires |c| % 16 == 0
  {
    if |c| == 0 then iv else c[|c| - 16..]
  }

  lemma Assoc(x: seq<bv8>, y: seq<bv8>, z: seq<bv8>)
    ensures x + (y + z) == (x + y) + z
  {
  }

  lemma LastOfParts(iv: Block, h: Block, t: seq<bv8>)
    requires |t| % 16 == 0
    ensures LastBlock(iv, h + t) == LastBlock(h, t)
  {
    hide LastBlock;
    if |t| == 0 {
      assert h + t == h && t == [];
      NothingToDo(x => x, h, h);
      LastIs(iv, h);
    } else {
      LastOfTail(h, t);
      LastIs(iv, h + t);
      LastIs(h, t);
    }
  }

  lemma LastIs(iv: Block, c: seq<bv8>)
    requires |c| % 16 == 0 && |c| > 0
    ensures LastBlock(iv, c) == c[|c| - 16..]
  {
  }

  lemma LastOfTail(h: seq<bv8>, t: seq<bv8>)
    requires |h| == 16 <= |t|
    ensures (h + t)[|t|..] == t[|t| - 16..] && |h + t| - 16 == |t|
  {
  }

  lemma EncryptedStep(f: Block -> Block, iv: Block, p: seq<bv8>, h: Block, t: seq<bv8>)
    requires |p| % 16 == 0 && p == h + t
    ensures CbcEncrypted(f, iv, p) == f(AddBlocks(h, iv)) + CbcEncrypted(f, f(AddBlocks(h, iv)), t)
  {
    hide AddBlocks;
    assert p[..16] == h && p[16..] == t;
  }

  lemma DecryptedStep(g: Block -> Block, iv: Block, c: seq<bv8>, h: Block, t: seq<bv8>)
    requires |c| % 16 == 0 && c == h + t
    ensures CbcDecrypted(g, iv, c) == AddBlocks(g(h), iv) + CbcDecrypted(g, h, t)
  {
    hide AddBlocks;
    assert c[..16] == h && c[16..] == t;
  }

  lemma NothingToDo(f: Block -> Block, iv: Block, q: seq<bv8>)
    ensures CbcEncrypted(f, iv, []) == [] && CbcDecrypted(f, iv, []) == [] && LastBlock(iv, []) == iv
    ensures [] + q == q && Behind([], q, q)
  {
  }

  // Two calls on the parts, with the chaining value kept between them, are one call on the whole.
  lemma {:induction false} CbcEncryptedSplit(f: Block -> Block, iv: Block, p: seq<bv8>, q: seq<bv8>)
    requires |p| % 16 == 0 && |q| % 16 == 0
    ensures var c := CbcEncrypted(f, iv, p);
            CbcEncrypted(f, iv, p + q) == c + CbcEncrypted(f, LastBlock(iv, c), q)
    decreases |p|
  {
    hide AddBlocks, CbcEncrypted, LastBlock;
    if |p| == 0 {
      NothingToDo(f, iv, q);
      NothingToDo(f, iv, CbcEncrypted(f, iv, q));
    } else {
      var h, t := p[..16], p[16..];
      assert p == h + t;
      Assoc(h, t, q);
      EncryptedStep(f, iv, p, h, t);
      EncryptedStep(f, iv, p + q, h, t + q);
      var c: Block := f(AddBlocks(h, iv));
      CbcEncryptedSplit(f, c, t, q);
      var d := CbcEncrypted(f, c, t);
      LastOfParts(iv, c, d);
      Assoc(c, d, CbcEncrypted(f, LastBlock(c, d), q));
    }
  }

  lemma {:induction false} CbcDecryptedSplit(g: Block -> Block, iv: Block, c: seq<bv8>, d: seq<bv8>)
    requires |c| % 16 == 0 && |d| % 16 == 0
    ensures CbcDecrypted(g, iv, c + d) == CbcDecrypted(g, iv, c) + CbcDecrypted(g, LastBlock(iv, c), d)
    decreases |c|
  {
    hide AddBlocks, CbcDecrypted, LastBlock;
    if |c| == 0 {
      NothingToDo(g, iv, d);
      NothingToDo(g, iv, CbcDecrypted(g, iv, d));
    } else {
      var h, t := c[..16], c[16..];
      assert c == h + t;
      Assoc(h, t, d);
      DecryptedStep(g, iv, c, h, t);
      DecryptedStep(g, iv, c + d, h, t + d);
      CbcDecryptedSplit(g, h, t, d);
      LastOfParts(iv, h, t);
      Assoc(AddBlocks(g(h), iv), CbcDecrypted(g, h, t), CbcDecrypted(g, LastBlock(h, t), d));
    }
  }

  // The chaining value kept between two calls is the one that a single call leaves.
  lemma LastBlockSplit(iv: Block, c: seq<bv8>, d: seq<bv8>)
    requires |c| % 16 == 0 && |d| % 16 == 0
    ensures LastBlock(iv, c + d) == LastBlock(LastBlock(iv, c), d)
  {
    if |d| == 0 {
      assert c + d == c;
    } else {
      var e := c + d;
      assert e[|e| - 16..] == d[|d| - 16..];
    }
  }

  // struct AES_ctx
  class Context {
    const RoundKey: array<bv8>
    const Iv: array<bv8>

    constructor ()
      ensures Ok() && fresh(RoundKey) && fresh(Iv)
    {
      RoundKey := new bv8[176];
      Iv := new bv8[16];
    }

    // AES_init_ctx_iv
    method InitIv(key: array<bv8>, iv: array<bv8>)
      requires Ok() && key.Length >= 16 && iv.Length >= 16
      requires key != RoundKey && iv != RoundKey && iv != Iv
      modifies RoundKey, Iv
      ensures RoundKey[..] == Schedule(old(key[..16]), 44) && Iv[..] == old(iv[..16])
    {
      hide Schedule, Framed;
      ghost var b := iv[..16];
      KeyExpansion(RoundKey, key);
      assert iv[0..0 + 16] == b;
      CopyBlock(Iv, 0, iv, 0);
      assert Iv[..] == Iv[0..0 + 16];
    }

    ghost predicate Ok() { RoundKey.Length == 176 && Iv.Length == 16 && RoundKey != Iv }
  }

  // a block copied
  method CopyBlock(dst: array<bv8>, d: nat, src: array<bv8>, s: nat)
    requires d + 16 <= dst.Length && s + 16 <= src.Length && (dst != src || d == s || d + 16 <= s || s + 16 <= d)
    modifies dst
    ensures dst[d..d + 16] == old(src[s..s + 16])
    ensures Framed(old(dst[..]), dst[..], d)
  {
    for i := 0 to 16
      invariant forall n :: 0 <= n < dst.Length && !(d <= n < d + i) ==> dst[n] == old(dst[n])
      invariant forall n :: d <= n < d + i ==> dst[n] == old(src[n - d + s])
    {
      dst[d + i] := src[s + i];
    }
  }

  // XorWithIv, with Iv a pointer into some buffer
  method XorWithIv(buf: array<bv8>, at: nat, Iv: array<bv8>, iv: nat)
    requires at + 16 <= buf.Length && iv + 16 <= Iv.Length && (buf != Iv || iv + 16 <= at)
    modifies buf
    ensures buf[at..at + 16] == AddBlocks(old(buf[at..at + 16]), old(Iv[iv..iv + 16]))
    ensures Framed(old(buf[..]), buf[..], at)
  {
    hide Add;
    for i := 0 to 16
      invariant forall n :: 0 <= n < buf.Length && !(at <= n < at + i) ==> buf[n] == old(buf[n])
      invariant forall n :: at <= n < at + i ==> buf[n] == Add(old(buf[n]), old(Iv[n - at + iv]))
    {
      buf[at + i] := Add(buf[at + i], Iv[iv + i]);
    }
  }

  // one more block
  lemma CbcEncryptedNext(f: Block -> Block, iv: Block, p: seq<bv8>, b: Block)
    requires |p| % 16 == 0
    ensures var c := CbcEncrypted(f, iv, p);
            && CbcEncrypted(f, iv, p + b) == c + f(AddBlocks(b, LastBlock(iv, c)))
            && LastBlock(iv, c + f(AddBlocks(b, LastBlock(iv, c)))) == f(AddBlocks(b, LastBlock(iv, c)))
  {
    hide AddBlocks;
    CbcEncryptedSplit(f, iv, p, b);
    var last := LastBlock(iv, CbcEncrypted(f, iv, p));
    OneBlock(f, last, b);
  }

  lemma OneBlock(f: Block -> Block, iv: Block, b: Block)
    ensures CbcEncrypted(f, iv, b) == f(AddBlocks(b, iv)) && CbcDecrypted(f, iv, b) == AddBlocks(f(b), iv)
  {
    hide AddBlocks;
    var c: Block := f(AddBlocks(b, iv));
    assert b[..16] == b && b[16..] == [];
    assert CbcEncrypted(f, c, []) == [] && CbcDecrypted(f, b, []) == [];
    assert c + [] == c;
    var d: Block := AddBlocks(f(b), iv);
    assert d + [] == d;
  }

  // the chaining block added to the block, and the result enciphered
  method EncryptBlock(ctx: Context, buf: array<bv8>, at: nat, Iv: array<bv8>, iv: nat)
    requires ctx.Ok() && at + 16 <= buf.Length && iv + 16 <= Iv.Length && (buf != Iv || iv + 16 <= at)
    requires buf != ctx.RoundKey && buf != ctx.Iv
    modifies buf
    ensures buf[at..at + 16] == Enc(ctx.RoundKey[..])(AddBlocks(old(buf[at..at + 16]), old(Iv[iv..iv + 16])))
    ensures Framed(old(buf[..]), buf[..], at)
  {
    hide Cipher, AddBlocks, Framed;
    ghost var s := buf[..];
    XorWithIv(buf, at, Iv, iv);
    ghost var t := buf[..];
    CipherInPlace(buf, at, ctx.RoundKey);
    FramedTwice(s, t, buf[..], at);
  }

  // a buffer in parts: what precedes the data, the data done, the data to do, and what follows
  ghost predicate Layout(s: seq<bv8>, pre: seq<bv8>, done: seq<bv8>, todo: seq<bv8>, post: seq<bv8>) {
    s == pre + done + todo + post
  }

  // replacing the first block of the part that is still to do
  lemma Replaced(s: seq<bv8>, t: seq<bv8>, pre: seq<bv8>, done: seq<bv8>, todo: seq<bv8>, post: seq<bv8>)
    requires |todo| >= 16 && Layout(s, pre, done, todo, post) && Framed(s, t, |pre| + |done|)
    ensures |pre| + |done| + |todo| + |post| == |s|
    ensures s[|pre| + |done|..|pre| + |done| + 16] == todo[..16]
    ensures Layout(t, pre, done + t[|pre| + |done|..|pre| + |done| + 16], todo[16..], post)
  {
    var at := |pre| + |done|;
    var u := pre + (done + t[at..at + 16]) + todo[16..] + post;
    forall n | 0 <= n < |t| ensures t[n] == u[n] {
      if n < at {
        assert s[n] == u[n];
      } else if n < at + 16 {
        assert u[n] == t[at..at + 16][n - at];
      } else {
        assert s[n] == u[n];
      }
    }
  }

  // the parts of a buffer
  lemma Parts(s: seq<bv8>, off: nat, length: nat)
    requires off + length <= |s|
    ensures Layout(s, s[..off], [], s[off..off + length], s[off + length..])
  {
  }

  lemma Whole(s: seq<bv8>, pre: seq<bv8>, done: seq<bv8>, post: seq<bv8>)
    requires Layout(s, pre, done, [], post)
    ensures s[|pre|..|pre| + |done|] == done && s[..|pre|] == pre && s[|pre| + |done|..] == post
  {
  }

  lemma FramedSelf(s: seq<bv8>, off: nat)
    ensures Framed(s, s, off)
  {
  }

  // one block in place: done is behind, todo is ahead
  method EncryptNext(ctx: Context, buf: array<bv8>, at: nat, Iv: array<bv8>, iv: nat,
                     ghost pre: seq<bv8>, ghost done: seq<bv8>, ghost todo: seq<bv8>, ghost post: seq<bv8>)
    requires ctx.Ok() && at + 16 <= buf.Length && iv + 16 <= Iv.Length && (buf != Iv || iv + 16 <= at)
    requires buf != ctx.RoundKey && buf != ctx.Iv
    requires at == |pre| + |done| && |todo| >= 16 && Layout(buf[..], pre, done, todo, post)
    modifies buf
    ensures Layout(buf[..], pre, done + buf[at..at + 16], todo[16..], post)
    ensures buf[at..at + 16] == Enc(ctx.RoundKey[..])(AddBlocks(todo[..16], old(Iv[iv..iv + 16])))
  {
    hide Cipher, AddBlocks, Framed;
    ghost var s := buf[..];
    FramedSelf(s, at);
    Replaced(s, s, pre, done, todo, post);
    assert buf[at..at + 16] == todo[..16];
    EncryptBlock(ctx, buf, at, Iv, iv);
    Replaced(s, buf[..], pre, done, todo, post);
  }

  // p, the part of all before todo, is encrypted as done
  ghost predicate Encrypted(f: Block -> Block, iv: Block, p: seq<bv8>, todo: seq<bv8>, all: seq<bv8>, done: seq<bv8>) {
    |p| % 16 == 0 && done == CbcEncrypted(f, iv, p) && Behind(p, todo, all)
  }

  lemma EncryptedMore(f: Block -> Block, iv: Block, p: seq<bv8>, todo: seq<bv8>, all: seq<bv8>, done: seq<bv8>,
      c: Block)
    requires Encrypted(f, iv, p, todo, all, done) && |todo| >= 16 && |done| % 16 == 0
    requires c == f(AddBlocks(todo[..16], LastBlock(iv, done)))
    ensures Encrypted(f, iv, p + todo[..16], todo[16..], all, done + c) && c == LastBlock(iv, done + c)
  {
    hide CbcEncrypted, AddBlocks, Behind, LastBlock;
    CbcEncryptedNext(f, iv, p, todo[..16]);
    Advance(p, todo, all);
  }

  lemma EncryptedAll(f: Block -> Block, iv: Block, p: seq<bv8>, todo: seq<bv8>, all: seq<bv8>, done: seq<bv8>)
    requires Encrypted(f, iv, p, todo, all, done) && |todo| == 0
    ensures |all| % 16 == 0 && done == CbcEncrypted(f, iv, all) && todo == []
  {
    Finished(p, todo, all);
  }

  // the loop body of AES_CBC_encrypt_buffer
  method EncryptTurn(ctx: Context, buf: array<bv8>, at: nat, Iv: array<bv8>, iv: nat, ghost f: Block -> Block,
      ghost iv0: Block,
                     ghost p: seq<bv8>, ghost todo: seq<bv8>, ghost all: seq<bv8>,
                     ghost pre: seq<bv8>, ghost done: seq<bv8>, ghost post: seq<bv8>)
    returns (ghost p': seq<bv8>, ghost todo': seq<bv8>, ghost done': seq<bv8>)
    requires ctx.Ok() && at + 16 <= buf.Length && iv + 16 <= Iv.Length && (buf != Iv || iv + 16 <= at)
    requires buf != ctx.RoundKey && buf != ctx.Iv
    requires at == |pre| + |done| && |todo| >= 16 && |done| % 16 == 0 && Iv[iv..iv + 16] == LastBlock(iv0, done)
    requires Layout(buf[..], pre, done, todo, post) && Encrypted(f, iv0, p, todo, all, done)
        && Enc(ctx.RoundKey[..]) == f
    modifies buf
    ensures |todo'| == |todo| - 16 && |done'| == |done| + 16
    ensures Layout(buf[..], pre, done', todo', post) && Encrypted(f, iv0, p', todo', all, done')
    ensures buf[at..at + 16] == LastBlock(iv0, done')
  {
    hide AddBlocks, CbcEncrypted, Enc, LastBlock, Layout, Encrypted;
    EncryptNext(ctx, buf, at, Iv, iv, pre, done, todo, post);
    ghost var c: Block := buf[at..at + 16];
    EncryptedMore(f, iv0, p, todo, all, done, c);
    p', todo', done' := p + todo[..16], todo[16..], done + c;
  }

  // AES_CBC_encrypt_buffer on the length bytes of buf at off
  method CbcEncrypt(ctx: Context, buf: array<bv8>, off: nat, length: nat)
    requires ctx.Ok() && length % 16 == 0 && off + length <= buf.Length
    requires buf != ctx.RoundKey && buf != ctx.Iv
    modifies buf, ctx.Iv
    ensures buf[off..off + length] == CbcEncrypted(Enc(ctx.RoundKey[..]), old(ctx.Iv[..]), old(buf[off..off + length]))
    ensures forall n: nat :: 16 * n + 16 <= length ==>
      EncryptedBlock(ctx.RoundKey[..], old(ctx.Iv[..]), old(buf[off..off + length]), buf[off..off + length], n)
    ensures ctx.Iv[..] == if length == 0 then old(ctx.Iv[..]) else buf[off + length - 16..off + length]
    ensures buf[..off] == old(buf[..off]) && buf[off + length..] == old(buf[off + length..])
  {
    hide AddBlocks, CbcEncrypted, Enc, EncryptedBlock;
    ghost var w, iv, p := ctx.RoundKey[..], ctx.Iv[..], buf[off..off + length];
    EncryptLoop(ctx, buf, off, length);
    ghost var c := buf[off..off + length];
    forall n: nat | 16 * n + 16 <= length ensures EncryptedBlock(w, iv, p, c, n) {
      EncryptedBlocks(w, iv, p, c, n);
    }
  }

  // the blocks one after the other, with the ciphertext block as the next chaining value
  method EncryptLoop(ctx: Context, buf: array<bv8>, off: nat, length: nat)
    requires ctx.Ok() && length % 16 == 0 && off + length <= buf.Length
    requires buf != ctx.RoundKey && buf != ctx.Iv
    modifies buf, ctx.Iv
    ensures buf[off..off + length] == CbcEncrypted(Enc(ctx.RoundKey[..]), old(ctx.Iv[..]), old(buf[off..off + length]))
    ensures ctx.Iv[..] == LastBlock(old(ctx.Iv[..]), buf[off..off + length])
    ensures ctx.RoundKey[..] == old(ctx.RoundKey[..])
    ensures buf[..off] == old(buf[..off]) && buf[off + length..] == old(buf[off + length..])
  {
    hide AddBlocks, CbcEncrypted, Enc, LastBlock, Layout, Encrypted;
    ghost var iv0, f := ctx.Iv[..], Enc(ctx.RoundKey[..]);
    ghost var pre, post, all := buf[..off], buf[off + length..], buf[off..off + length];
    ghost var p, todo, done: seq<bv8> := [], all, [];
    var Iv, iv := ctx.Iv, 0;
    var i := 0;
    assert LastBlock(iv0, done) == iv0 by { NothingToDo(f, iv0, all); }
    Parts(buf[..], off, length);
    assert Encrypted(f, iv0, p, todo, all, done) by { EncryptedNothing(f, iv0, all); }
    while i < length
      invariant 0 <= i <= length && i % 16 == 0 && ctx.Iv[..] == iv0 && Enc(ctx.RoundKey[..]) == f
      invariant |done| == i && |todo| == length - i && Encrypted(f, iv0, p, todo, all, done)
      invariant Layout(buf[..], pre, done, todo, post)
      invariant iv + 16 <= Iv.Length && (buf == Iv ==> iv + 16 <= off + i) && (Iv == ctx.Iv ==> iv == 0)
      invariant Iv[iv..iv + 16] == LastBlock(iv0, done)
    {
      p, todo, done := EncryptTurn(ctx, buf, off + i, Iv, iv, f, iv0, p, todo, all, pre, done, post);
      Iv, iv := buf, off + i;
      i := i + 16;
    }
    EncryptedAll(f, iv0, p, todo, all, done);
    Whole(buf[..], pre, done, post);
    hide Context.Ok;
    StoreIv(ctx, Iv, iv);
  }

  // the last chaining block becomes the Iv of the context
  method StoreIv(ctx: Context, Iv: array<bv8>, iv: nat)
    requires ctx.Ok() && iv + 16 <= Iv.Length && (Iv == ctx.Iv ==> iv == 0)
    modifies ctx.Iv
    ensures ctx.Iv[..] == old(Iv[iv..iv + 16])
  {
    CopyBlock(ctx.Iv, 0, Iv, iv);
    assert ctx.Iv[..] == ctx.Iv[0..0 + 16];
  }

  lemma EncryptedNothing(f: Block -> Block, iv: Block, all: seq<bv8>)
    ensures Encrypted(f, iv, [], all, all, []) && Decrypted(f, iv, [], all, all, [])
  {
    NothingToDo(f, iv, all);
  }

  // the data behind and ahead
  ghost predicate Behind(p: seq<bv8>, todo: seq<bv8>, all: seq<bv8>) { p + todo == all }

  lemma Advance(p: seq<bv8>, todo: seq<bv8>, all: seq<bv8>)
    requires |todo| >= 16 && Behind(p, todo, all)
    ensures Behind(p + todo[..16], todo[16..], all)
  {
  }

  lemma Finished(p: seq<bv8>, todo: seq<bv8>, all: seq<bv8>)
    requires |todo| == 0 && Behind(p, todo, all)
    ensures todo == [] && p == all
  {
  }

  // one block deciphered; the Iv is added and then becomes the ciphertext block, which was saved
  method DecryptBlock(ctx: Context, buf: array<bv8>, at: nat)
    requires ctx.Ok() && at + 16 <= buf.Length && buf != ctx.RoundKey && buf != ctx.Iv
    modifies buf, ctx.Iv
    ensures buf[at..at + 16] == AddBlocks(Dec(ctx.RoundKey[..])(old(buf[at..at + 16])), old(ctx.Iv[..]))
    ensures ctx.Iv[..] == old(buf[at..at + 16])
    ensures Framed(old(buf[..]), buf[..], at)
  {
    hide InvCipher, AddBlocks, Framed;
    ghost var s, b, iv := buf[..], buf[at..at + 16], ctx.Iv[..];
    var storeNextIv := new bv8[16];
    CopyBlock(storeNextIv, 0, buf, at);
    InvCipherInPlace(buf, at, ctx.RoundKey);
    ghost var t := buf[..];
    assert ctx.Iv[0..0 + 16] == iv;
    XorWithIv(buf, at, ctx.Iv, 0);
    FramedTwice(s, t, buf[..], at);
    CopyBlock(ctx.Iv, 0, storeNextIv, 0);
    assert ctx.Iv[..] == ctx.Iv[0..0 + 16];
  }

  lemma CbcDecryptedNext(g: Block -> Block, iv: Block, c: seq<bv8>, b: Block)
    requires |c| % 16 == 0
    ensures CbcDecrypted(g, iv, c + b) == CbcDecrypted(g, iv, c) + AddBlocks(g(b), LastBlock(iv, c))
    ensures LastBlock(iv, c + b) == b
  {
    hide AddBlocks;
    CbcDecryptedSplit(g, iv, c, b);
    OneBlock(g, LastBlock(iv, c), b);
  }

  method DecryptNext(ctx: Context, buf: array<bv8>, at: nat,
                     ghost pre: seq<bv8>, ghost done: seq<bv8>, ghost todo: seq<bv8>, ghost post: seq<bv8>)
    requires ctx.Ok() && at + 16 <= buf.Length && buf != ctx.RoundKey && buf != ctx.Iv
    requires at == |pre| + |done| && |todo| >= 16 && Layout(buf[..], pre, done, todo, post)
    modifies buf, ctx.Iv
    ensures Layout(buf[..], pre, done + buf[at..at + 16], todo[16..], post)
    ensures buf[at..at + 16] == AddBlocks(Dec(ctx.RoundKey[..])(todo[..16]), old(ctx.Iv[..]))
    ensures ctx.Iv[..] == todo[..16]
  {
    hide InvCipher, AddBlocks, Framed;
    ghost var s := buf[..];
    FramedSelf(s, at);
    Replaced(s, s, pre, done, todo, post);
    assert buf[at..at + 16] == todo[..16];
    DecryptBlock(ctx, buf, at);
    Replaced(s, buf[..], pre, done, todo, post);
  }

  // c, the part of all before todo, is decrypted as done
  ghost predicate Decrypted(g: Block -> Block, iv: Block, c: seq<bv8>, todo: seq<bv8>, all: seq<bv8>, done: seq<bv8>) {
    |c| % 16 == 0 && done == CbcDecrypted(g, iv, c) && Behind(c, todo, all)
  }

  lemma DecryptedMore(g: Block -> Block, iv: Block, c: seq<bv8>, todo: seq<bv8>, all: seq<bv8>, done: seq<bv8>,
      b: Block)
    requires Decrypted(g, iv, c, todo, all, done) && |todo| >= 16 && |c| % 16 == 0
    requires b == AddBlocks(g(todo[..16]), LastBlock(iv, c))
    ensures Decrypted(g, iv, c + todo[..16], todo[16..], all, done + b) && LastBlock(iv, c + todo[..16]) == todo[..16]
  {
    hide CbcDecrypted, AddBlocks, Behind, LastBlock;
    CbcDecryptedNext(g, iv, c, todo[..16]);
    Advance(c, todo, all);
  }

  lemma DecryptedAll(g: Block -> Block, iv: Block, c: seq<bv8>, todo: seq<bv8>, all: seq<bv8>, done: seq<bv8>)
    requires Decrypted(g, iv, c, todo, all, done) && |todo| == 0
    ensures |all| % 16 == 0 && done == CbcDecrypted(g, iv, all) && todo == [] && c == all
  {
    Finished(c, todo, all);
  }

  // the loop body of AES_CBC_decrypt_buffer
  method DecryptTurn(ctx: Context, buf: array<bv8>, at: nat, ghost g: Block -> Block, ghost iv0: Block,
                     ghost c: seq<bv8>, ghost todo: seq<bv8>, ghost all: seq<bv8>,
                     ghost pre: seq<bv8>, ghost done: seq<bv8>, ghost post: seq<bv8>)
    returns (ghost c': seq<bv8>, ghost todo': seq<bv8>, ghost done': seq<bv8>)
    requires ctx.Ok() && at + 16 <= buf.Length && buf != ctx.RoundKey && buf != ctx.Iv
    requires at == |pre| + |done| && |todo| >= 16 && |c| % 16 == 0 && ctx.Iv[..] == LastBlock(iv0, c)
    requires Layout(buf[..], pre, done, todo, post) && Decrypted(g, iv0, c, todo, all, done)
        && Dec(ctx.RoundKey[..]) == g
    modifies buf, ctx.Iv
    ensures |c'| == |c| + 16 && |todo'| == |todo| - 16 && |done'| == |done| + 16
    ensures Layout(buf[..], pre, done', todo', post) && Decrypted(g, iv0, c', todo', all, done')
    ensures ctx.Iv[..] == LastBlock(iv0, c')
  {
    hide AddBlocks, CbcDecrypted, Dec, LastBlock, Layout, Decrypted;
    DecryptNext(ctx, buf, at, pre, done, todo, post);
    ghost var b: Block := buf[at..at + 16];
    DecryptedMore(g, iv0, c, todo, all, done, b);
    c', todo', done' := c + todo[..16], todo[16..], done + b;
  }

  // AES_CBC_decrypt_buffer on the length bytes of buf at off
  method CbcDecrypt(ctx: Context, buf: array<bv8>, off: nat, length: nat)
    requires ctx.Ok() && length % 16 == 0 && off + length <= buf.Length
    requires buf != ctx.RoundKey && buf != ctx.Iv
    modifies buf, ctx.Iv
    ensures buf[off..off + length] == CbcDecrypted(Dec(ctx.RoundKey[..]), old(ctx.Iv[..]), old(buf[off..off + length]))
    ensures forall n: nat :: 16 * n + 16 <= length ==>
      DecryptedBlock(ctx.RoundKey[..], old(ctx.Iv[..]), old(buf[off..off + length]), buf[off..off + length], n)
    ensures ctx.Iv[..] == if length == 0 then old(ctx.Iv[..]) else old(buf[off + length - 16..off + length])
    ensures buf[..off] == old(buf[..off]) && buf[off + length..] == old(buf[off + length..])
  {
    hide AddBlocks, CbcDecrypted, Dec, DecryptedBlock;
    ghost var w, iv, c := ctx.RoundKey[..], ctx.Iv[..], buf[off..off + length];
    DecryptLoop(ctx, buf, off, length);
    ghost var p := buf[off..off + length];
    forall n: nat | 16 * n + 16 <= length ensures DecryptedBlock(w, iv, c, p, n) {
      DecryptedBlocks(w, iv, c, p, n);
    }
  }

  // the blocks one after the other
  method DecryptLoop(ctx: Context, buf: array<bv8>, off: nat, length: nat)
    requires ctx.Ok() && length % 16 == 0 && off + length <= buf.Length
    requires buf != ctx.RoundKey && buf != ctx.Iv
    modifies buf, ctx.Iv
    ensures buf[off..off + length] == CbcDecrypted(Dec(ctx.RoundKey[..]), old(ctx.Iv[..]), old(buf[off..off + length]))
    ensures ctx.Iv[..] == LastBlock(old(ctx.Iv[..]), old(buf[off..off + length]))
    ensures ctx.RoundKey[..] == old(ctx.RoundKey[..])
    ensures buf[..off] == old(buf[..off]) && buf[off + length..] == old(buf[off + length..])
  {
    hide AddBlocks, CbcDecrypted, Dec, LastBlock, Layout, Decrypted;
    ghost var iv0, g := ctx.Iv[..], Dec(ctx.RoundKey[..]);
    ghost var pre, post, all := buf[..off], buf[off + length..], buf[off..off + length];
    ghost var c, todo, done: seq<bv8> := [], all, [];
    var i := 0;
    NothingToDo(g, iv0, all);
    Parts(buf[..], off, length);
    assert Decrypted(g, iv0, c, todo, all, done) by { EncryptedNothing(g, iv0, all); }
    while i < length
      invariant 0 <= i <= length && i % 16 == 0 && Dec(ctx.RoundKey[..]) == g
      invariant |c| == |done| == i && |todo| == length - i && Decrypted(g, iv0, c, todo, all, done)
      invariant Layout(buf[..], pre, done, todo, post)
      invariant ctx.Iv[..] == LastBlock(iv0, c)
    {
      c, todo, done := DecryptTurn(ctx, buf, off + i, g, iv0, c, todo, all, pre, done, post);
      i := i + 16;
    }
    DecryptedAll(g, iv0, c, todo, all, done);
    Whole(buf[..], pre, done, post);
  }

  // ----- CTR (section 6.5) -----

  // the big-endian value of a counter
  ghost function BE(s: seq<bv8>): nat {
    if |s| == 0 then 0 else 256 * BE(s[..|s| - 1]) + s[|s| - 1] as nat
  }

  ghost function Pow256(n: nat): nat {
    if n == 0 then 1 else 256 * Pow256(n - 1)
  }

  // the next counter: the last byte goes up, with a carry out of 255
  ghost function Next(s: seq<bv8>): (t: seq<bv8>)
    ensures |t| == |s|
    decreases |s|
  {
    if |s| == 0 then []
    else if s[|s| - 1] == 255 then Next(s[..|s| - 1]) + [0]
    else s[..|s| - 1] + [s[|s| - 1] + 1]
  }

  lemma ByteUp(b: bv8)
    ensures b != 255 ==> (b + 1) as nat == b as nat + 1 <= 255
    ensures b == 255 ==> b as nat == 255
  {
  }

  lemma {:induction false} BEBound(s: seq<bv8>)
    ensures BE(s) < Pow256(|s|)
  {
    if |s| > 0 {
      BEBound(s[..|s| - 1]);
    }
  }

  // It is the successor, modulo the number of counters.
  lemma {:induction false} NextValue(s: seq<bv8>)
    ensures Pow256(|s|) > 0 && BE(Next(s)) == (BE(s) + 1) % Pow256(|s|)
    decreases |s|
  {
    if |s| > 0 {
      var h, b := s[..|s| - 1], s[|s| - 1];
      assert s == h + [b];
      NextValue(h);
      assert Pow256(|s|) == 256 * Pow256(|h|);
      hide Pow256, Next, BE;
      NextStep(h, b, Pow256(|h|));
    }
  }

  lemma NextStep(h: seq<bv8>, b: bv8, p: nat)
    requires p == Pow256(|h|) > 0 && BE(Next(h)) == (BE(h) + 1) % p
    ensures BE(Next(h + [b])) == (BE(h + [b]) + 1) % (256 * p)
  {
    hide Pow256, Next, BE;
    BEBound(h);
    ByteUp(b);
    NextLast(h, b);
    BEAppend(h, b);
    if b == 255 {
      BEAppend(Next(h), 0);
      Wrapped(BE(h), p);
    } else {
      BEAppend(h, b + 1);
      Below(BE(h), p, b as nat + 1);
    }
  }

  lemma BEAppend(h: seq<bv8>, b: bv8)
    ensures BE(h + [b]) == 256 * BE(h) + b as nat
  {
    assert (h + [b])[..|h|] == h;
  }

  lemma NextLast(h: seq<bv8>, b: bv8)
    ensures Next(h + [b]) == if b == 255 then Next(h) + [0] else h + [b + 1]
  {
    assert (h + [b])[..|h|] == h;
  }

  lemma Wrapped(v: nat, p: nat)
    requires v < p
    ensures 256 * ((v + 1) % p) == (256 * v + 255 + 1) % (256 * p)
  {
    if v + 1 == p {
      DivMod(v + 1, p, 1, 0);
      DivMod(256 * v + 256, 256 * p, 1, 0);
    } else {
      DivMod(v + 1, p, 0, v + 1);
      DivMod(256 * v + 256, 256 * p, 0, 256 * v + 256);
    }
  }

  lemma Below(v: nat, p: nat, b: nat)
    requires v < p && b <= 255
    ensures (256 * v + b) % (256 * p) == 256 * v + b
  {
    DivMod(256 * v + b, 256 * p, 0, 256 * v + b);
  }

  ghost function Plus(iv: Block, n: nat): Block
    decreases n
  {
    if n == 0 then iv else Next(Plus(iv, n - 1))
  }

  // After n blocks the counter is n more, modulo 2^128.
  lemma {:induction false} PlusValue(iv: Block, n: nat)
    ensures BE(Plus(iv, n)) == (BE(iv) + n) % 0x1_0000_0000_0000_0000_0000_0000_0000_0000
  {
    hide BE, Next, Pow256;
    assert Pow256(16) == 0x1_0000_0000_0000_0000_0000_0000_0000_0000 by { Pow256At16(); }
    if n == 0 {
      BEBound(iv);
    } else {
      PlusValue(iv, n - 1);
      NextValue(Plus(iv, n - 1));
    }
  }

  lemma Pow256At16()
    ensures Pow256(16) == 0x1_0000_0000_0000_0000_0000_0000_0000_0000
  {
    assert Pow256(4) == 0x1_0000_0000;
    assert Pow256(8) == 0x1_0000_0000_0000_0000;
    assert Pow256(12) == 0x1_0000_0000_0000_0000_0000_0000;
  }

  // byte i of the result: byte i of the data plus the keystream
  ghost function CtrByte(f: Block -> Block, iv: Block, d: bv8, i: nat): bv8 {
    Add(d, f(Plus(iv, i / 16))[i % 16])
  }

  ghost function Ctr(f: Block -> Block, iv: Block, d: seq<bv8>): (e: seq<bv8>)
    ensures |e| == |d|
  {
    seq(|d|, i requires 0 <= i < |d| => CtrByte(f, iv, d[i], i))
  }

  // Byte i of the result e is byte i of the data d, xored with byte i % 16 of the cipher of the counter i / 16 places
  // on.
  ghost predicate KeystreamByte(w: Keys, iv: Block, d: seq<bv8>, e: seq<bv8>, i: nat)
    requires i < |d| == |e|
  {
    e[i] == d[i] ^ Cipher(Plus(iv, i / 16), w)[i % 16]
  }

  lemma KeystreamBytes(w: Keys, iv: Block, d: seq<bv8>, e: seq<bv8>, i: nat)
    requires i < |d| && e == Ctr(Enc(w), iv, d)
    ensures KeystreamByte(w, iv, d, e, i)
  {
    hide Cipher, Plus, Add;
    AddIs(d[i], Cipher(Plus(iv, i / 16), w)[i % 16]);
  }

  // Applying it twice from the same counter restores data of any length.
  lemma CtrTwice(f: Block -> Block, iv: Block, d: seq<bv8>)
    ensures Ctr(f, iv, Ctr(f, iv, d)) == d
  {
    hide Add, Plus;
    forall i | 0 <= i < |d| ensures Ctr(f, iv, Ctr(f, iv, d))[i] == d[i] {
      var k := f(Plus(iv, i / 16))[i % 16];
      AddLaws(d[i], k, k);
      AddLaws(k, k, 0);
      AddLaws(d[i], 0, 0);
    }
  }

  lemma {:induction false} PlusPlus(iv: Block, m: nat, n: nat)
    ensures Plus(Plus(iv, m), n) == Plus(iv, m + n)
  {
    hide Next;
    if n > 0 {
      PlusPlus(iv, m, n - 1);
    }
  }

  // Calls on whole blocks, with the counter kept between them, are one call.
  lemma CtrSplit(f: Block -> Block, iv: Block, d: seq<bv8>, e: seq<bv8>)
    requires |d| % 16 == 0
    ensures Ctr(f, iv, d + e) == Ctr(f, iv, d) + Ctr(f, Plus(iv, |d| / 16), e)
  {
    hide CtrByte, Plus, Ctr;
    var whole, parts := Ctr(f, iv, d + e), Ctr(f, iv, d) + Ctr(f, Plus(iv, |d| / 16), e);
    forall i | 0 <= i < |d + e| ensures whole[i] == parts[i] {
      CtrByteSplit(f, iv, d, e, i);
    }
  }

  lemma CtrByteSplit(f: Block -> Block, iv: Block, d: seq<bv8>, e: seq<bv8>, i: nat)
    requires |d| % 16 == 0 && i < |d| + |e|
    ensures Ctr(f, iv, d + e)[i] == (Ctr(f, iv, d) + Ctr(f, Plus(iv, |d| / 16), e))[i]
  {
    hide CtrByte, Plus, Ctr;
    var n, k := |d|, Plus(iv, |d| / 16);
    CtrAt(f, iv, d + e, i);
    if i >= n {
      var m := i - n;
      assert (d + e)[i] == e[m];
      CtrShift(f, iv, e[m], n, m);
      CtrAt(f, k, e, m);
    } else {
      CtrAt(f, iv, d, i);
    }
  }

  lemma CtrAt(f: Block -> Block, iv: Block, d: seq<bv8>, i: nat)
    requires i < |d|
    ensures Ctr(f, iv, d)[i] == CtrByte(f, iv, d[i], i)
  {
    hide CtrByte;
  }

  lemma CtrShift(f: Block -> Block, iv: Block, b: bv8, n: nat, i: nat)
    requires n % 16 == 0
    ensures CtrByte(f, iv, b, n + i) == CtrByte(f, Plus(iv, n / 16), b, i)
  {
    hide Add, Plus;
    DivMod(n + i, 16, n / 16 + i / 16, i % 16);
    PlusPlus(iv, n / 16, i / 16);
  }

  // one is added from the last byte on, going on while a byte wraps
  method Increment(Iv: array<bv8>)
    requires Iv.Length == 16
    modifies Iv
    ensures Iv[..] == Next(old(Iv[..]))
  {
    hide Next;
    ghost var s := Iv[..];
    var bi := 15;
    assert s[..16] == s && Iv[16..] == [];
    while bi >= 0
      invariant -1 <= bi <= 15
      invariant Iv[..bi + 1] == s[..bi + 1]
      invariant Next(s) == Next(s[..bi + 1]) + Iv[bi + 1..]
    {
      NextAt(s, bi);
      assert Iv[bi] == Iv[..bi + 1][bi];
      if Iv[bi] == 255 {
        Iv[bi] := 0;
        assert Iv[bi..] == [0] + Iv[bi + 1..];
        bi := bi - 1;
        continue;
      }
      Iv[bi] := Iv[bi] + 1;
      assert Iv[..bi] == s[..bi] && Iv[bi..] == [s[bi] + 1] + Iv[bi + 1..];
      assert Iv[..] == Iv[..bi] + Iv[bi..];
      return;
    }
    NextOfNothing();
    assert s[..0] == [] && Iv[0..] == Iv[..];
  }

  // the next counter, on its first bytes
  lemma NextAt(s: seq<bv8>, i: nat)
    requires i < |s|
    ensures Next(s[..i + 1]) == if s[i] == 255 then Next(s[..i]) + [0] else s[..i] + [s[i] + 1]
  {
    assert s[..i + 1][..i] == s[..i];
  }

  lemma NextOfNothing()
    ensures Next([]) == []
  {
  }

  // the counter block enciphered into the buffer, and the counter moved on
  method NextKeystream(ctx: Context, buffer: array<bv8>)
    requires ctx.Ok() && buffer.Length == 16 && buffer != ctx.RoundKey && buffer != ctx.Iv
    modifies buffer, ctx.Iv
    ensures buffer[..] == Enc(ctx.RoundKey[..])(old(ctx.Iv[..]))
    ensures ctx.Iv[..] == Next(old(ctx.Iv[..]))
  {
    hide Cipher, Next;
    ghost var iv := ctx.Iv[..];
    assert ctx.Iv[0..0 + 16] == iv;
    CopyBlock(buffer, 0, ctx.Iv, 0);
    CipherInPlace(buffer, 0, ctx.RoundKey);
    assert buffer[..] == buffer[0..0 + 16];
    Increment(ctx.Iv);
  }

  // AES_CTR_xcrypt_buffer on the length bytes of buf at off
  method CtrXcrypt(ctx: Context, buf: array<bv8>, off: nat, length: nat)
    requires ctx.Ok() && off + length <= buf.Length && buf != ctx.RoundKey && buf != ctx.Iv
    modifies buf, ctx.Iv
    ensures buf[off..off + length] == Ctr(Enc(ctx.RoundKey[..]), old(ctx.Iv[..]), old(buf[off..off + length]))
    ensures var d, e := old(buf[off..off + length]), buf[off..off + length];
            forall i: nat :: i < |d| ==> KeystreamByte(ctx.RoundKey[..], old(ctx.Iv[..]), d, e, i)
    ensures ctx.Iv[..] == Plus(old(ctx.Iv[..]), (length + 15) / 16)
    ensures BE(ctx.Iv[..]) == (BE(old(ctx.Iv[..])) + (length + 15) / 16) % 0x1_0000_0000_0000_0000_0000_0000_0000_0000
    ensures buf[..off] == old(buf[..off]) && buf[off + length..] == old(buf[off + length..])
  {
    hide Ctr, Enc, KeystreamByte, Plus, BE;
    ghost var w, iv, d := ctx.RoundKey[..], ctx.Iv[..], buf[off..off + length];
    CtrLoop(ctx, buf, off, length);
    PlusValue(iv, (length + 15) / 16);
    ghost var e := buf[off..off + length];
    forall i: nat | i < length ensures KeystreamByte(w, iv, d, e, i) {
      KeystreamBytes(w, iv, d, e, i);
    }
  }

  // the bytes one after the other, with a new keystream block every 16 bytes
  method CtrLoop(ctx: Context, buf: array<bv8>, off: nat, length: nat)
    requires ctx.Ok() && off + length <= buf.Length && buf != ctx.RoundKey && buf != ctx.Iv
    modifies buf, ctx.Iv
    ensures buf[off..off + length] == Ctr(Enc(ctx.RoundKey[..]), old(ctx.Iv[..]), old(buf[off..off + length]))
    ensures ctx.Iv[..] == Plus(old(ctx.Iv[..]), (length + 15) / 16) && ctx.RoundKey[..] == old(ctx.RoundKey[..])
    ensures buf[..off] == old(buf[..off]) && buf[off + length..] == old(buf[off + length..])
  {
    hide Cipher, Next, Add, Enc, Plus, Ctr, CtrByte;
    ghost var iv0, f, d := ctx.Iv[..], Enc(ctx.RoundKey[..]), buf[off..off + length];
    ghost var q := 0;
    assert Plus(iv0, 0) == iv0 by { PlusSteps(iv0, 0); }
    var buffer := new bv8[16];
    var i, bi := 0, 16;
    while i < length
      invariant 0 <= i <= length && Enc(ctx.RoundKey[..]) == f
      invariant i == 16 * q + bi - 16
      invariant if q == 0 then bi == 16 else 1 <= bi <= 16 && buffer[..] == f(Plus(iv0, q - 1))
      invariant q >= 0 && ctx.Iv[..] == Plus(iv0, q)
      invariant forall n :: 0 <= n < buf.Length && !(off <= n < off + i) ==> buf[n] == old(buf[n])
      invariant forall n :: off <= n < off + i ==> buf[n] == CtrByte(f, iv0, old(buf[n]), n - off)
    {
      if bi == 16 {
        Refill(ctx, buffer, f, iv0, q);
        bi := 0;
        q := q + 1;
      }
      CtrByteIs(f, iv0, buf[off + i], i, q - 1, bi);
      buf[off + i] := Add(buf[off + i], buffer[bi]);
      i, bi := i + 1, bi + 1;
    }
    DivMod(length + 15, 16, q, if q == 0 then 15 else bi - 1);
    AllCtr(f, iv0, d, buf[off..off + length]);
  }

  // a new block of keystream from counter q
  method Refill(ctx: Context, buffer: array<bv8>, ghost f: Block -> Block, ghost iv0: Block, ghost q: nat)
    requires ctx.Ok() && buffer.Length == 16 && buffer != ctx.RoundKey && buffer != ctx.Iv
    requires Enc(ctx.RoundKey[..]) == f && ctx.Iv[..] == Plus(iv0, q)
    modifies buffer, ctx.Iv
    ensures buffer[..] == f(Plus(iv0, q)) && ctx.Iv[..] == Plus(iv0, q + 1)
  {
    hide Next, Enc, Plus;
    PlusSteps(iv0, q);
    NextKeystream(ctx, buffer);
  }

  lemma CtrByteIs(f: Block -> Block, iv: Block, d: bv8, i: nat, q: nat, k: nat)
    requires i == 16 * q + k && k < 16
    ensures CtrByte(f, iv, d, i) == Add(d, f(Plus(iv, q))[k])
  {
    hide Add, Plus;
    DivMod(i, 16, q, k);
  }

  lemma AllCtr(f: Block -> Block, iv: Block, d: seq<bv8>, e: seq<bv8>)
    requires |e| == |d| && forall i :: 0 <= i < |d| ==> e[i] == CtrByte(f, iv, d[i], i)
    ensures e == Ctr(f, iv, d)
  {
    hide CtrByte;
  }

  lemma PlusSteps(iv: Block, n: nat)
    ensures Plus(iv, 0) == iv && Plus(iv, n + 1) == Next(Plus(iv, n))
  {
    hide Next;
  }
}
