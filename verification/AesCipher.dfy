// The block cipher of aes.c, in place on 16 bytes of a buffer, against section 5 of FIPS 197.
// Byte r of column c of the state is byte 4 c + r of the block.
module AesCipher {
  import opened AesTables

  type Block = s: seq<bv8> | |s| == 16 witness seq(16, _ => 0)

  // ----- the transformations on blocks -----

  ghost function SubBytes(b: Block): Block {
    seq(16, k requires 0 <= k < 16 => Sbox(b[k]))
  }

  ghost function InvSubBytes(b: Block): Block {
    seq(16, k requires 0 <= k < 16 => Rsbox(b[k]))
  }

  // row r moves r columns to the left
  ghost function ShiftRows(b: Block): Block {
    [b[0], b[5], b[10], b[15], b[4], b[9], b[14], b[3], b[8], b[13], b[2], b[7], b[12], b[1], b[6], b[11]]
  }

  // row r moves r columns to the right
  ghost function InvShiftRows(b: Block): Block {
    [b[0], b[13], b[10], b[7], b[4], b[1], b[14], b[11], b[8], b[5], b[2], b[15], b[12], b[9], b[6], b[3]]
  }

  // byte r of column c
  lemma RowsShift(b: Block, c: nat, r: nat)
    requires c < 4 && r < 4
    ensures ShiftRows(b)[4 * c + r] == b[4 * ((c + r) % 4) + r]
  {
  }

  lemma InvRowsShift(b: Block, c: nat, r: nat)
    requires c < 4 && r < 4
    ensures InvShiftRows(b)[4 * ((c + r) % 4) + r] == b[4 * c + r]
  {
  }

  type Column = c: seq<bv8> | |c| == 4 witness [0, 0, 0, 0]

  ghost function MixColumn(c: Column): Column {
    [Mixed(c[0], c[1], c[2], c[3]), Mixed(c[1], c[2], c[3], c[0]),
     Mixed(c[2], c[3], c[0], c[1]), Mixed(c[3], c[0], c[1], c[2])]
  }

  ghost function UnmixColumn(c: Column): (r: Column) {
    [Unmixed(c[0], c[1], c[2], c[3]), Unmixed(c[1], c[2], c[3], c[0]),
     Unmixed(c[2], c[3], c[0], c[1]), Unmixed(c[3], c[0], c[1], c[2])]
  }

  ghost function MixColumns(b: Block): Block {
    MixColumn(b[0..4]) + MixColumn(b[4..8]) + MixColumn(b[8..12]) + MixColumn(b[12..16])
  }

  ghost function InvMixColumns(b: Block): Block {
    UnmixColumn(b[0..4]) + UnmixColumn(b[4..8]) + UnmixColumn(b[8..12]) + UnmixColumn(b[12..16])
  }

  type Keys = s: seq<bv8> | |s| == 176 witness seq(176, _ => 0)

  ghost function AddRoundKey(round: nat, b: Block, w: Keys): Block
    requires round <= 10
  {
    seq(16, k requires 0 <= k < 16 => Add(b[k], w[16 * round + k]))
  }

  // ----- each transformation is undone -----

  lemma InvSubBytesUndoes(b: Block)
    ensures InvSubBytes(SubBytes(b)) == b
  {
    hide Sbox, Rsbox;
    forall k | 0 <= k < 16 ensures InvSubBytes(SubBytes(b))[k] == b[k] {
      RsboxSbox(b[k]);
    }
  }

  lemma InvShiftRowsUndoes(b: Block)
    ensures InvShiftRows(ShiftRows(b)) == b
  {
  }

  lemma ColumnUndone(c: Column)
    ensures UnmixColumn(MixColumn(c)) == c
  {
    hide Mixed, Unmixed;
    UnmixedMixed(c[0], c[1], c[2], c[3]);
    UnmixedMixed(c[1], c[2], c[3], c[0]);
    UnmixedMixed(c[2], c[3], c[0], c[1]);
    UnmixedMixed(c[3], c[0], c[1], c[2]);
  }

  // the four columns of a block
  lemma Columns(b: Block, w: Column, x: Column, y: Column, z: Column)
    requires b == w + x + y + z
    ensures b[0..4] == w && b[4..8] == x && b[8..12] == y && b[12..16] == z
  {
  }

  lemma InvMixColumnsUndoes(b: Block)
    ensures InvMixColumns(MixColumns(b)) == b
  {
    hide MixColumn, UnmixColumn;
    ColumnUndone(b[0..4]);
    ColumnUndone(b[4..8]);
    ColumnUndone(b[8..12]);
    ColumnUndone(b[12..16]);
    Columns(MixColumns(b), MixColumn(b[0..4]), MixColumn(b[4..8]), MixColumn(b[8..12]), MixColumn(b[12..16]));
    assert b == b[0..4] + b[4..8] + b[8..12] + b[12..16];
  }

  lemma AddRoundKeyUndoes(round: nat, b: Block, w: Keys)
    requires round <= 10
    ensures AddRoundKey(round, AddRoundKey(round, b, w), w) == b
  {
    hide Add;
    forall k | 0 <= k < 16 ensures AddRoundKey(round, AddRoundKey(round, b, w), w)[k] == b[k] {
      AddLaws(b[k], w[16 * round + k], w[16 * round + k]);
      AddLaws(w[16 * round + k], w[16 * round + k], 0);
      AddLaws(b[k], 0, 0);
    }
  }

  // ----- the cipher and its inverse -----

  const NR: nat := 10

  // the state after the first n rounds (section 5.1)
  ghost function Rounds(b: Block, w: Keys, n: nat): Block
    requires n <= 9
    decreases n
  {
    if n == 0 then AddRoundKey(0, b, w)
    else AddRoundKey(n, MixColumns(ShiftRows(SubBytes(Rounds(b, w, n - 1)))), w)
  }

  ghost function Cipher(b: Block, w: Keys): Block {
    AddRoundKey(10, ShiftRows(SubBytes(Rounds(b, w, NR - 1))), w)
  }

  // ----- a round, byte by byte -----

  // the substituted byte that shifting brings to row r of column c
  ghost function Moved(b: Block, c: nat, r: nat): bv8
    requires c < 4 && r < 4
  {
    Sbox(b[4 * ((c + r) % 4) + r])
  }

  // byte k of the state t after round n: the mixed bytes of its column and the byte of the round key
  ghost predicate RoundByte(s: Block, t: Block, w: Keys, n: nat, k: nat)
    requires n <= 10 && k < 16
  {
    var c, r := k / 4, k % 4;
    var x, y := Moved(s, c, r), Moved(s, c, (r + 1) % 4);
    t[k] == Xtime(x) ^ (Xtime(y) ^ y) ^ (Moved(s, c, (r + 2) % 4) ^ Moved(s, c, (r + 3) % 4)) ^ w[16 * n + k]
  }

  ghost predicate RoundOf(s: seq<Block>, w: Keys, n: nat, k: nat)
    requires |s| == 11 && 1 <= n <= 9 && k < 16
  {
    RoundByte(s[n - 1], s[n], w, n, k)
  }

  // byte k of the state t after the last round, which does not mix
  ghost predicate LastByte(s: Block, t: Block, w: Keys, k: nat)
    requires k < 16
  {
    t[k] == Moved(s, k / 4, k % 4) ^ w[160 + k]
  }

  lemma MixedAt(u: Block, c: nat, r: nat)
    requires c < 4 && r < 4
    ensures MixColumns(u)[4 * c + r]
         == Mixed(u[4 * c + r], u[4 * c + (r + 1) % 4], u[4 * c + (r + 2) % 4], u[4 * c + (r + 3) % 4])
  {
    hide Mixed, MixColumns;
    MixedColumn(u, c);
    var d := u[4 * c..4 * c + 4];
    assert MixColumns(u)[4 * c..4 * c + 4][r] == MixColumns(u)[4 * c + r];
    assert forall j :: 0 <= j < 4 ==> d[j] == u[4 * c + j];
    MixedByte(d, r);
  }

  lemma MixedColumn(u: Block, c: nat)
    requires c < 4
    ensures MixColumns(u)[4 * c..4 * c + 4] == MixColumn(u[4 * c..4 * c + 4])
  {
    hide MixColumn;
    Columns(MixColumns(u), MixColumn(u[0..4]), MixColumn(u[4..8]), MixColumn(u[8..12]), MixColumn(u[12..16]));
  }

  lemma MixedByte(d: Column, r: nat)
    requires r < 4
    ensures MixColumn(d)[r] == Mixed(d[r], d[(r + 1) % 4], d[(r + 2) % 4], d[(r + 3) % 4])
  {
    hide Mixed;
  }

  // substituted and shifted
  lemma MovedAt(b: Block, c: nat, r: nat)
    requires c < 4 && r < 4
    ensures ShiftRows(SubBytes(b))[4 * c + r] == Moved(b, c, r)
  {
    hide Sbox, ShiftRows;
    RowsShift(SubBytes(b), c, r);
  }

  // a mixed byte and a byte of the round key, with the additions written out
  lemma MixedIs(a: bv8, b: bv8, c: bv8, d: bv8, k: bv8)
    ensures Add(Mixed(a, b, c, d), k) == Xtime(a) ^ (Xtime(b) ^ b) ^ (c ^ d) ^ k
  {
    Products(a);
    Products(b);
    hide Product, Xtime, Add;
    AddIs(Xtime(b), b);
    AddIs(Xtime(a), Add(Xtime(b), b));
    AddIs(c, d);
    AddIs(Add(Xtime(a), Add(Xtime(b), b)), Add(c, d));
    AddIs(Mixed(a, b, c, d), k);
  }

  lemma RoundBytes(s: Block, w: Keys, n: nat, k: nat)
    requires n <= 10 && k < 16
    ensures RoundByte(s, AddRoundKey(n, MixColumns(ShiftRows(SubBytes(s))), w), w, n, k)
  {
    hide MixColumns, ShiftRows, SubBytes, Moved, Mixed, Xtime, Add;
    var c, r := k / 4, k % 4;
    var u := ShiftRows(SubBytes(s));
    MixedAt(u, c, r);
    MovedAt(s, c, r);
    MovedAt(s, c, (r + 1) % 4);
    MovedAt(s, c, (r + 2) % 4);
    MovedAt(s, c, (r + 3) % 4);
    MixedIs(Moved(s, c, r), Moved(s, c, (r + 1) % 4), Moved(s, c, (r + 2) % 4), Moved(s, c, (r + 3) % 4),
            w[16 * n + k]);
  }

  lemma LastBytes(s: Block, w: Keys, k: nat)
    requires k < 16
    ensures LastByte(s, AddRoundKey(10, ShiftRows(SubBytes(s)), w), w, k)
  {
    hide ShiftRows, SubBytes, Moved, Add;
    MovedAt(s, k / 4, k % 4);
    AddIs(Moved(s, k / 4, k % 4), w[160 + k]);
  }

  lemma FirstBytes(b: Block, w: Keys, k: nat)
    requires k < 16
    ensures AddRoundKey(0, b, w)[k] == b[k] ^ w[k]
  {
    hide Add;
    AddIs(b[k], w[k]);
  }

  // The cipher of section 5.1, byte by byte: the eleven states between the block and its cipher.
  lemma CipherStates(b: Block, w: Keys) returns (s: seq<Block>)
    ensures |s| == 11 && s[10] == Cipher(b, w)
    ensures forall k: nat :: k < 16 ==> s[0][k] == b[k] ^ w[k]
    ensures forall n: nat, k: nat :: 1 <= n <= 9 && k < 16 ==> RoundOf(s, w, n, k)
    ensures forall k: nat :: k < 16 ==> LastByte(s[9], s[10], w, k)
  {
    hide MixColumns, ShiftRows, SubBytes, AddRoundKey, RoundByte, LastByte, Rounds;
    s := [Rounds(b, w, 0), Rounds(b, w, 1), Rounds(b, w, 2), Rounds(b, w, 3), Rounds(b, w, 4), Rounds(b, w, 5),
          Rounds(b, w, 6), Rounds(b, w, 7), Rounds(b, w, 8), Rounds(b, w, 9), Cipher(b, w)];
    forall k: nat | k < 16
      ensures s[0][k] == b[k] ^ w[k] && LastByte(s[9], s[10], w, k)
    {
      FirstState(b, w);
      FirstBytes(b, w, k);
      LastBytes(Rounds(b, w, 9), w, k);
    }
    forall n: nat, k: nat | 1 <= n <= 9 && k < 16
      ensures RoundOf(s, w, n, k)
    {
      NextState(b, w, n);
      RoundBytes(Rounds(b, w, n - 1), w, n, k);
    }
  }

  lemma FirstState(b: Block, w: Keys)
    ensures Rounds(b, w, 0) == AddRoundKey(0, b, w)
  {
    hide AddRoundKey;
  }

  lemma NextState(b: Block, w: Keys, n: nat)
    requires 1 <= n <= 9
    ensures Rounds(b, w, n) == AddRoundKey(n, MixColumns(ShiftRows(SubBytes(Rounds(b, w, n - 1)))), w)
  {
    hide MixColumns, ShiftRows, SubBytes, AddRoundKey;
  }

  // the state after the rounds 9, 8, .., n + 1 of section 5.3
  ghost function InvRounds(b: Block, w: Keys, n: nat): Block
    requires n <= 9
    decreases 9 - n
  {
    if n == 9 then AddRoundKey(10, b, w)
    else InvMixColumns(AddRoundKey(n + 1, InvSubBytes(InvShiftRows(InvRounds(b, w, n + 1))), w))
  }

  ghost function InvCipher(b: Block, w: Keys): Block {
    AddRoundKey(0, InvSubBytes(InvShiftRows(InvRounds(b, w, NR - 10))), w)
  }

  // Going back to round n leaves the shifted and substituted state of round n.
  lemma {:induction false} InvRoundsUndo(b: Block, w: Keys, n: nat)
    requires n <= 9
    ensures InvRounds(Cipher(b, w), w, n) == ShiftRows(SubBytes(Rounds(b, w, n)))
    decreases 9 - n
  {
    hide AddRoundKey, ShiftRows, SubBytes, MixColumns, InvShiftRows, InvSubBytes, InvMixColumns;
    var c := Cipher(b, w);
    if n == 9 {
      AddRoundKeyUndoes(10, ShiftRows(SubBytes(Rounds(b, w, 9))), w);
    } else {
      InvRoundsUndo(b, w, n + 1);
      hide Cipher;
      var s, t := Rounds(b, w, n), Rounds(b, w, n + 1);
      var m := MixColumns(ShiftRows(SubBytes(s)));
      assert t == AddRoundKey(n + 1, m, w);
      InvShiftRowsUndoes(SubBytes(t));
      InvSubBytesUndoes(t);
      AddRoundKeyUndoes(n + 1, m, w);
      InvMixColumnsUndoes(ShiftRows(SubBytes(s)));
    }
  }

  // InvCipher undoes Cipher for every state and every array of round keys.
  lemma InvCipherUndoes(b: Block, w: Keys)
    ensures InvCipher(Cipher(b, w), w) == b
  {
    hide AddRoundKey, ShiftRows, SubBytes, MixColumns, InvShiftRows, InvSubBytes, InvMixColumns, Cipher;
    InvRoundsUndo(b, w, 0);
    var s := Rounds(b, w, 0);
    assert s == AddRoundKey(0, b, w);
    InvShiftRowsUndoes(SubBytes(s));
    InvSubBytesUndoes(s);
    AddRoundKeyUndoes(0, b, w);
  }

  // ----- in place -----

  // t is s outside the 16 bytes at off
  ghost predicate Framed(s: seq<bv8>, t: seq<bv8>, off: nat) {
    && |s| == |t|
    && forall k :: 0 <= k < |s| && !(off <= k < off + 16) ==> t[k] == s[k]
  }

  // one byte of the round key added to its byte of the state
  method AddRoundKeyInPlace(round: nat, buf: array<bv8>, off: nat, RoundKey: array<bv8>)
    requires round <= 10 && off + 16 <= buf.Length && RoundKey.Length == 176 && buf != RoundKey
    modifies buf
    ensures buf[off..off + 16] == AddRoundKey(round, old(buf[off..off + 16]), RoundKey[..])
    ensures Framed(old(buf[..]), buf[..], off)
  {
    hide Add;
    for i := 0 to 4
      invariant forall k :: 0 <= k < buf.Length && !(off <= k < off + 4 * i) ==> buf[k] == old(buf[k])
      invariant forall n :: off <= n < off + 4 * i ==> buf[n] == Add(old(buf[n]), RoundKey[16 * round + (n - off)])
    {
      for j := 0 to 4
        invariant forall k :: 0 <= k < buf.Length && !(off <= k < off + 4 * i + j) ==> buf[k] == old(buf[k])
        invariant forall n :: off <= n < off + 4 * i + j ==>
          buf[n] == Add(old(buf[n]), RoundKey[16 * round + (n - off)])
      {
        buf[off + 4 * i + j] := Add(buf[off + 4 * i + j], RoundKey[round * 4 * 4 + i * 4 + j]);
      }
    }
  }

  // byte k comes before byte (j, i) in the order of the loops
  ghost predicate Done(k: int, i: nat, j: nat) { k % 4 < i || (k % 4 == i && k < 4 * j) }

  // (*state)[j][i] = getSBoxValue((*state)[j][i])
  method SubBytesInPlace(buf: array<bv8>, off: nat)
    requires off + 16 <= buf.Length
    modifies buf
    ensures buf[off..off + 16] == SubBytes(old(buf[off..off + 16]))
    ensures Framed(old(buf[..]), buf[..], off)
  {
    hide Sbox;
    for i := 0 to 4
      invariant forall k :: 0 <= k < buf.Length && !(off <= k < off + 16) ==> buf[k] == old(buf[k])
      invariant forall n :: off <= n < off + 16 ==>
        buf[n] == if (n - off) % 4 < i then Sbox(old(buf[n])) else old(buf[n])
    {
      for j := 0 to 4
        invariant forall k :: 0 <= k < buf.Length && !(off <= k < off + 16) ==> buf[k] == old(buf[k])
        invariant forall n :: off <= n < off + 16 ==>
          buf[n] == if Done(n - off, i, j) then Sbox(old(buf[n])) else old(buf[n])
      {
        buf[off + 4 * j + i] := Sbox(buf[off + 4 * j + i]);
      }
    }
  }

  // (*state)[j][i] = getSBoxInvert((*state)[j][i])
  method InvSubBytesInPlace(buf: array<bv8>, off: nat)
    requires off + 16 <= buf.Length
    modifies buf
    ensures buf[off..off + 16] == InvSubBytes(old(buf[off..off + 16]))
    ensures Framed(old(buf[..]), buf[..], off)
  {
    hide Rsbox;
    for i := 0 to 4
      invariant forall k :: 0 <= k < buf.Length && !(off <= k < off + 16) ==> buf[k] == old(buf[k])
      invariant forall n :: off <= n < off + 16 ==>
        buf[n] == if (n - off) % 4 < i then Rsbox(old(buf[n])) else old(buf[n])
    {
      for j := 0 to 4
        invariant forall k :: 0 <= k < buf.Length && !(off <= k < off + 16) ==> buf[k] == old(buf[k])
        invariant forall n :: off <= n < off + 16 ==>
          buf[n] == if Done(n - off, i, j) then Rsbox(old(buf[n])) else old(buf[n])
      {
        buf[off + 4 * j + i] := Rsbox(buf[off + 4 * j + i]);
      }
    }
  }

  // temp = p; p = q; q = r; r = s; s = temp
  method Cycle(buf: array<bv8>, p: nat, q: nat, r: nat, s: nat)
    requires p < buf.Length && q < buf.Length && r < buf.Length && s < buf.Length
    requires p != q && p != r && p != s && q != r && q != s && r != s
    modifies buf
    ensures buf[p] == old(buf[q]) && buf[q] == old(buf[r]) && buf[r] == old(buf[s]) && buf[s] == old(buf[p])
    ensures forall k :: 0 <= k < buf.Length && k != p && k != q && k != r && k != s ==> buf[k] == old(buf[k])
  {
    var temp := buf[p];
    buf[p] := buf[q];
    buf[q] := buf[r];
    buf[r] := buf[s];
    buf[s] := temp;
  }

  // temp = p; p = q; q = temp
  method Swap(buf: array<bv8>, p: nat, q: nat)
    requires p < buf.Length && q < buf.Length && p != q
    modifies buf
    ensures buf[p] == old(buf[q]) && buf[q] == old(buf[p])
    ensures forall k :: 0 <= k < buf.Length && k != p && k != q ==> buf[k] == old(buf[k])
  {
    var temp := buf[p];
    buf[p] := buf[q];
    buf[q] := temp;
  }

  lemma Bytes(s: seq<bv8>, off: nat)
    requires off + 16 <= |s|
    ensures s[off..off + 16] ==
            [s[off], s[off + 1], s[off + 2], s[off + 3], s[off + 4], s[off + 5], s[off + 6], s[off + 7],
             s[off + 8], s[off + 9], s[off + 10], s[off + 11], s[off + 12], s[off + 13], s[off + 14], s[off + 15]]
  {
  }

  method ShiftRowsInPlace(buf: array<bv8>, off: nat)
    requires off + 16 <= buf.Length
    modifies buf
    ensures buf[off..off + 16] == ShiftRows(old(buf[off..off + 16]))
    ensures Framed(old(buf[..]), buf[..], off)
  {
    Bytes(buf[..], off);
    Cycle(buf, off + 1, off + 5, off + 9, off + 13);
    Swap(buf, off + 2, off + 10);
    Swap(buf, off + 6, off + 14);
    Cycle(buf, off + 3, off + 15, off + 11, off + 7);
    Bytes(buf[..], off);
  }

  method InvShiftRowsInPlace(buf: array<bv8>, off: nat)
    requires off + 16 <= buf.Length
    modifies buf
    ensures buf[off..off + 16] == InvShiftRows(old(buf[off..off + 16]))
    ensures Framed(old(buf[..]), buf[..], off)
  {
    Bytes(buf[..], off);
    Cycle(buf, off + 13, off + 9, off + 5, off + 1);
    Swap(buf, off + 2, off + 10);
    Swap(buf, off + 6, off + 14);
    Cycle(buf, off + 3, off + 7, off + 11, off + 15);
    Bytes(buf[..], off);
  }

  // one turn of the loop of MixColumns
  method MixColumnInPlace(buf: array<bv8>, at: nat)
    requires at + 4 <= buf.Length
    modifies buf
    ensures buf[at..at + 4] == MixColumn(old(buf[at..at + 4]))
    ensures forall k :: 0 <= k < buf.Length && !(at <= k < at + 4) ==> buf[k] == old(buf[k])
  {
    hide Add, Xtime, Mixed;
    ghost var a, b, c, d := buf[at], buf[at + 1], buf[at + 2], buf[at + 3];
    MixedByXtime(a, b, c, d);
    MixedByXtime(b, c, d, a);
    MixedByXtime(c, d, a, b);
    MixedByXtime(d, a, b, c);
    var t := buf[at];
    var Tmp := Add(Add(Add(buf[at], buf[at + 1]), buf[at + 2]), buf[at + 3]);
    Total(a, b, c, d);
    var Tm := Add(buf[at], buf[at + 1]);
    Tm := Xtime(Tm);
    buf[at] := Add(buf[at], Add(Tm, Tmp));
    Tm := Add(buf[at + 1], buf[at + 2]);
    Tm := Xtime(Tm);
    buf[at + 1] := Add(buf[at + 1], Add(Tm, Tmp));
    Tm := Add(buf[at + 2], buf[at + 3]);
    Tm := Xtime(Tm);
    buf[at + 2] := Add(buf[at + 2], Add(Tm, Tmp));
    Tm := Add(buf[at + 3], t);
    Tm := Xtime(Tm);
    buf[at + 3] := Add(buf[at + 3], Add(Tm, Tmp));
  }

  // s ^ (xtime(s ^ next) ^ Tmp) is the mixed byte
  lemma MixedByXtime(a: bv8, b: bv8, c: bv8, d: bv8)
    ensures Add(a, Add(Xtime(Add(a, b)), Add(Add(Add(a, b), c), d))) == Mixed(a, b, c, d)
  {
    hide Add, Xtime, Product;
    Products(a);
    Products(b);
    XtimeLinear(a, b);
    var x, y := Xtime(a), Xtime(b);
    var u := Add(c, d);
    // a + ((x + y) + ((a + b) + u)) = ((x + (y + b)) + u)
    AddLaws(Add(a, b), c, d);
    AddLaws(Add(x, y), Add(a, b), u);
    AddLaws(a, Add(Add(x, y), Add(a, b)), u);
    Exchange(x, y, a, b);
    AddLaws(a, Add(x, a), Add(y, b));
    AddLaws(a, x, 0);
    AddLaws(a, a, x);
    AddLaws(x, 0, 0);
  }

  // Tmp does not depend on where the column starts.
  lemma Total(a: bv8, b: bv8, c: bv8, d: bv8)
    ensures Add(Add(Add(a, b), c), d) == Add(Add(Add(b, c), d), a)
    ensures Add(Add(Add(a, b), c), d) == Add(Add(Add(c, d), a), b)
    ensures Add(Add(Add(a, b), c), d) == Add(Add(Add(d, a), b), c)
  {
    hide Add;
    AddLaws(Add(a, b), c, d);
    AddLaws(Add(Add(b, c), d), a, 0);
    AddLaws(b, c, d);
    AddLaws(a, b, Add(c, d));
    AddLaws(Add(c, d), a, b);
    AddLaws(Add(c, d), Add(a, b), 0);
    AddLaws(d, a, b);
    AddLaws(d, Add(a, b), 0);
    AddLaws(Add(a, b), d, c);
    AddLaws(c, d, 0);
  }

  // column i of the block is still in its place
  lemma ColumnOf(s: seq<bv8>, t: seq<bv8>, off: nat, i: nat)
    requires off + 16 <= |s| == |t| && i < 4
    requires forall n :: off + 4 * i <= n < |s| ==> t[n] == s[n]
    ensures t[off + 4 * i..off + 4 * i + 4] == s[off..off + 16][4 * i..4 * (i + 1)]
  {
    var c, d := t[off + 4 * i..off + 4 * i + 4], s[off..off + 16][4 * i..4 * (i + 1)];
    assert |c| == |d| == 4;
    forall k | 0 <= k < 4 ensures c[k] == d[k] {
      assert c[k] == t[off + 4 * i + k];
    }
  }

  // one column after the other
  method MixColumnsInPlace(buf: array<bv8>, off: nat)
    requires off + 16 <= buf.Length
    modifies buf
    ensures buf[off..off + 16] == MixColumns(old(buf[off..off + 16]))
    ensures Framed(old(buf[..]), buf[..], off)
  {
    hide MixColumn;
    ghost var s0, b := buf[..], buf[off..off + 16];
    for i := 0 to 4
      invariant forall n :: 0 <= n < buf.Length && !(off <= n < off + 4 * i) ==> buf[n] == old(buf[n])
      invariant buf[off..off + 4 * i] == MixedPrefix(b, i)
    {
      ghost var s, c := buf[off..off + 4 * i], buf[off + 4 * i..off + 4 * i + 4];
      ColumnOf(s0, buf[..], off, i);
      MixColumnInPlace(buf, off + 4 * i);
      assert buf[off..off + 4 * i] == s;
      assert buf[off..off + 4 * (i + 1)] == s + buf[off + 4 * i..off + 4 * i + 4];
    }
    AllMixed(b);
  }

  // the first n columns, mixed
  ghost function MixedPrefix(b: Block, n: nat): (s: seq<bv8>)
    requires n <= 4
    ensures |s| == 4 * n
  {
    if n == 0 then [] else MixedPrefix(b, n - 1) + MixColumn(b[4 * (n - 1)..4 * n])
  }

  lemma AllMixed(b: Block)
    ensures MixedPrefix(b, 4) == MixColumns(b)
  {
    hide MixColumn;
    assert MixedPrefix(b, 1) == MixColumn(b[0..4]);
    assert MixedPrefix(b, 2) == MixedPrefix(b, 1) + MixColumn(b[4..8]);
    assert MixedPrefix(b, 3) == MixedPrefix(b, 2) + MixColumn(b[8..12]);
  }

  // one turn of the loop of InvMixColumns
  method UnmixColumnInPlace(buf: array<bv8>, at: nat)
    requires at + 4 <= buf.Length
    modifies buf
    ensures buf[at..at + 4] == UnmixColumn(old(buf[at..at + 4]))
    ensures forall k :: 0 <= k < buf.Length && !(at <= k < at + 4) ==> buf[k] == old(buf[k])
  {
    hide Add, Multiply, Unmixed;
    var a, b, c, d := buf[at], buf[at + 1], buf[at + 2], buf[at + 3];
    UnmixedByMultiply(a, b, c, d);
    UnmixedByMultiply(b, c, d, a);
    UnmixedByMultiply(c, d, a, b);
    UnmixedByMultiply(d, a, b, c);
    buf[at] := Add(Add(Add(Multiply(a, 0x0e), Multiply(b, 0x0b)), Multiply(c, 0x0d)), Multiply(d, 0x09));
    buf[at + 1] := Add(Add(Add(Multiply(a, 0x09), Multiply(b, 0x0e)), Multiply(c, 0x0b)), Multiply(d, 0x0d));
    buf[at + 2] := Add(Add(Add(Multiply(a, 0x0d), Multiply(b, 0x09)), Multiply(c, 0x0e)), Multiply(d, 0x0b));
    buf[at + 3] := Add(Add(Add(Multiply(a, 0x0b), Multiply(b, 0x0d)), Multiply(c, 0x09)), Multiply(d, 0x0e));
  }

  // the sum of the source, wherever the column starts
  lemma UnmixedByMultiply(a: bv8, b: bv8, c: bv8, d: bv8)
    ensures var p, q, r, s := Multiply(a, 0x0e), Multiply(b, 0x0b), Multiply(c, 0x0d), Multiply(d, 0x09);
            && Add(Add(Add(p, q), r), s) == Unmixed(a, b, c, d)
            && Add(Add(Add(s, p), q), r) == Unmixed(a, b, c, d)
            && Add(Add(Add(r, s), p), q) == Unmixed(a, b, c, d)
            && Add(Add(Add(q, r), s), p) == Unmixed(a, b, c, d)
  {
    MultiplyIsProduct(a);
    MultiplyIsProduct(b);
    MultiplyIsProduct(c);
    MultiplyIsProduct(d);
    hide Add, Multiply, Product;
    var p, q, r, s := Multiply(a, 0x0e), Multiply(b, 0x0b), Multiply(c, 0x0d), Multiply(d, 0x09);
    AddLaws(Add(p, q), r, s);
    Total(p, q, r, s);
  }

  method InvMixColumnsInPlace(buf: array<bv8>, off: nat)
    requires off + 16 <= buf.Length
    modifies buf
    ensures buf[off..off + 16] == InvMixColumns(old(buf[off..off + 16]))
    ensures Framed(old(buf[..]), buf[..], off)
  {
    hide UnmixColumn;
    ghost var s0, b := buf[..], buf[off..off + 16];
    for i := 0 to 4
      invariant forall n :: 0 <= n < buf.Length && !(off <= n < off + 4 * i) ==> buf[n] == old(buf[n])
      invariant buf[off..off + 4 * i] == UnmixedPrefix(b, i)
    {
      ghost var s, c := buf[off..off + 4 * i], buf[off + 4 * i..off + 4 * i + 4];
      ColumnOf(s0, buf[..], off, i);
      UnmixColumnInPlace(buf, off + 4 * i);
      assert buf[off..off + 4 * i] == s;
      assert buf[off..off + 4 * (i + 1)] == s + buf[off + 4 * i..off + 4 * i + 4];
    }
    AllUnmixed(b);
  }

  ghost function UnmixedPrefix(b: Block, n: nat): (s: seq<bv8>)
    requires n <= 4
    ensures |s| == 4 * n
  {
    if n == 0 then [] else UnmixedPrefix(b, n - 1) + UnmixColumn(b[4 * (n - 1)..4 * n])
  }

  lemma AllUnmixed(b: Block)
    ensures UnmixedPrefix(b, 4) == InvMixColumns(b)
  {
    hide UnmixColumn;
    assert UnmixedPrefix(b, 1) == UnmixColumn(b[0..4]);
    assert UnmixedPrefix(b, 2) == UnmixedPrefix(b, 1) + UnmixColumn(b[4..8]);
    assert UnmixedPrefix(b, 3) == UnmixedPrefix(b, 2) + UnmixColumn(b[8..12]);
  }

  lemma FramedTwice(s: seq<bv8>, t: seq<bv8>, u: seq<bv8>, off: nat)
    requires Framed(s, t, off) && Framed(t, u, off)
    ensures Framed(s, u, off)
  {
  }

  // one turn of the loop of Cipher
  method RoundInPlace(round: nat, buf: array<bv8>, off: nat, RoundKey: array<bv8>)
    requires round <= 10 && off + 16 <= buf.Length && RoundKey.Length == 176 && buf != RoundKey
    modifies buf
    ensures buf[off..off + 16]
         == AddRoundKey(round, MixColumns(ShiftRows(SubBytes(old(buf[off..off + 16])))), RoundKey[..])
    ensures Framed(old(buf[..]), buf[..], off)
  {
    hide SubBytes, ShiftRows, MixColumns, AddRoundKey, Framed;
    ghost var s0 := buf[..];
    SubBytesInPlace(buf, off);
    ghost var s1 := buf[..];
    ShiftRowsInPlace(buf, off);
    ghost var s2 := buf[..];
    MixColumnsInPlace(buf, off);
    ghost var s3 := buf[..];
    AddRoundKeyInPlace(round, buf, off, RoundKey);
    FramedTwice(s0, s1, s2, off);
    FramedTwice(s0, s2, s3, off);
    FramedTwice(s0, s3, buf[..], off);
  }

  // Cipher
  method CipherInPlace(buf: array<bv8>, off: nat, RoundKey: array<bv8>)
    requires off + 16 <= buf.Length && RoundKey.Length == 176 && buf != RoundKey
    modifies buf
    ensures buf[off..off + 16] == Cipher(old(buf[off..off + 16]), RoundKey[..])
    ensures Framed(old(buf[..]), buf[..], off)
  {
    hide SubBytes, ShiftRows, MixColumns, AddRoundKey, Framed;
    ghost var s0, b, w := buf[..], buf[off..off + 16], RoundKey[..];
    AddRoundKeyInPlace(0, buf, off, RoundKey);
    for round := 1 to 10
      invariant RoundKey[..] == w
      invariant buf[off..off + 16] == Rounds(b, w, round - 1)
      invariant Framed(s0, buf[..], off)
    {
      ghost var s := buf[..];
      RoundInPlace(round, buf, off, RoundKey);
      FramedTwice(s0, s, buf[..], off);
    }
    LastRound(buf, off, RoundKey, s0);
  }

  method LastRound(buf: array<bv8>, off: nat, RoundKey: array<bv8>, ghost s0: seq<bv8>)
    requires off + 16 <= buf.Length && RoundKey.Length == 176 && buf != RoundKey
    requires Framed(s0, buf[..], off)
    modifies buf
    ensures buf[off..off + 16] == AddRoundKey(10, ShiftRows(SubBytes(old(buf[off..off + 16]))), RoundKey[..])
    ensures Framed(s0, buf[..], off)
  {
    hide SubBytes, ShiftRows, AddRoundKey, Framed;
    ghost var s1 := buf[..];
    SubBytesInPlace(buf, off);
    ghost var s2 := buf[..];
    ShiftRowsInPlace(buf, off);
    ghost var s3 := buf[..];
    AddRoundKeyInPlace(10, buf, off, RoundKey);
    FramedTwice(s0, s1, s2, off);
    FramedTwice(s0, s2, s3, off);
    FramedTwice(s0, s3, buf[..], off);
  }

  // InvShiftRows, InvSubBytes and AddRoundKey, which every round of InvCipher starts with
  method UnroundInPlace(round: nat, buf: array<bv8>, off: nat, RoundKey: array<bv8>, ghost s0: seq<bv8>)
    requires round <= 10 && off + 16 <= buf.Length && RoundKey.Length == 176 && buf != RoundKey
    requires Framed(s0, buf[..], off)
    modifies buf
    ensures buf[off..off + 16] == AddRoundKey(round, InvSubBytes(InvShiftRows(old(buf[off..off + 16]))), RoundKey[..])
    ensures Framed(s0, buf[..], off)
  {
    hide InvSubBytes, InvShiftRows, AddRoundKey, Framed;
    ghost var s1 := buf[..];
    InvShiftRowsInPlace(buf, off);
    ghost var s2 := buf[..];
    InvSubBytesInPlace(buf, off);
    ghost var s3 := buf[..];
    AddRoundKeyInPlace(round, buf, off, RoundKey);
    FramedTwice(s0, s1, s2, off);
    FramedTwice(s0, s2, s3, off);
    FramedTwice(s0, s3, buf[..], off);
  }

  // InvCipher
  method InvCipherInPlace(buf: array<bv8>, off: nat, RoundKey: array<bv8>)
    requires off + 16 <= buf.Length && RoundKey.Length == 176 && buf != RoundKey
    modifies buf
    ensures buf[off..off + 16] == InvCipher(old(buf[off..off + 16]), RoundKey[..])
    ensures Framed(old(buf[..]), buf[..], off)
  {
    hide InvSubBytes, InvShiftRows, InvMixColumns, AddRoundKey, Framed;
    ghost var s0, b, w := buf[..], buf[off..off + 16], RoundKey[..];
    AddRoundKeyInPlace(10, buf, off, RoundKey);
    var round := 9;
    while round > 0
      invariant 0 <= round <= 9 && RoundKey[..] == w
      invariant buf[off..off + 16] == InvRounds(b, w, round)
      invariant Framed(s0, buf[..], off)
    {
      UnroundInPlace(round, buf, off, RoundKey, s0);
      ghost var s := buf[..];
      InvMixColumnsInPlace(buf, off);
      FramedTwice(s0, s, buf[..], off);
      round := round - 1;
    }
    UnroundInPlace(0, buf, off, RoundKey, s0);
  }
}
