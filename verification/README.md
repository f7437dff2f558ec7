# Verification of the cryptographic core and the device tree scanner

This project models four components of the repository in Dafny and proves what their headers, comments
and standards promise. `dafny verify dfyconfig.toml` checks all of it.

* **Ed25519** (`common/ed25519`). `Sc*` is arithmetic modulo the group order in signed 21-bit limbs, `Fe*`
  arithmetic modulo 2^255 - 19 in radix 2^25.5, `Ge`, `GeGroup` and `Edwards` the points, `Digits`,
  `DoubleScalarMult`, `Radix16` and `BaseScalarMult` the scalar multiplications, `CurveClosure` the curve equation, `PointEncoding` and `Ed25519`
  encoding, key generation and signing. The layers refine one another: limbs, integers, points, the
  signature equation.
* **SHA-3** (`common/sha3`). `Keccak` is the in-place permutation against the step mappings of FIPS 202,
  `Sha3` the incremental sponge against padded-block absorption.
* **AES** (`common/aes`). `AesTables` holds the tables and GF(2^8), `AesCipher` the in-place cipher and its
  inverse, `AesModes` the key schedule, CBC and CTR.
* **Flattened device trees** (`sm/machine/fdt.c`). `FdtTree` has trees, their words and traces, `FdtScan` the
  recursive scanner that deletes nodes in place, `FdtFilter` the compatibility filter, `FdtProps` property values,
  `FdtHart` the masking of harts.

`Arith`, `Ints`, `Bits` and `Bytes` are shared: division facts, machine integers, bit fields, byte loads.

## How the C code is read

* `int32_t`, `int64_t`, `signed char` and `unsigned char` are newtypes over the integers with their C ranges,
  so an addition or product that could overflow does not verify. A right shift of a signed number is floor
  division and `x << k` is multiplication. Bit operations on them are the recursive functions `Or`, `And`, `Xor`.
  SHA-3 lanes, AES bytes and device tree words are bit vectors.
* The locals `s0..s23` of `sc_reduce` and `sc_muladd` are one array of 24 limbs; a group of statements that the
  source repeats for each limb (a carry, a fold, a product) is one method that is called as often.
* A field element is an array of ten limbs, a point an object with such arrays. Pointers into buffers are an
  array and an offset.
* The callbacks of the device tree scanner are functions on an explicit state; a node is known by the
  position of its name.

## Hypotheses

They are preconditions of the members that need them and are not proved: that 2^255 - 19 is prime
(`Edwards.PrimeField`), Fermat's little theorem for it (`FePower.Fermat`), that the curve is an abelian group whose
addition is given everywhere by the formulas of section 5.1.4 of RFC 8032 (`Edwards.Laws`), and that the tables of
`common/ed25519/precomp_data.h` hold bounded multiples of the base point, which lies on the curve
(`BaseScalarMult.BaseTable`, `DoubleScalarMult.OddPrecomp`). That sums of points of the curve lie on the curve is
proved, and carried by the representation predicates of `GeGroup`. That l B = 0 is a condition inside the statement about signatures.

## Where the code and its comments differ

* `fe_tobytes` (`common/ed25519/fe.c:1369`) argues from |h| <= p. The bounds that it states for its input do not
  give that (`FeBytes.BoundsPassPrime`); the result is right all the same, because the quotient lies in -2..1 and
  the cascade finds it (`FeBytes.QuotientByPrime`).
* `fe_add` and `fe_sub` are called in `ge_add` and its relatives with operands larger than their headers allow
  (`common/ed25519/ge.c:17-21`). The model states them for any bounds that fit 32 bits, and proves that every
  result is within what `fe_mul` and `fe_sq` accept.
* `filter_compat` uses the depth 999 both as "nothing to delete" and as a depth (`sm/machine/fdt.c:524-525`). A node
  at that depth is deleted whether it matches or not (`FdtFilter.SentinelDeletes`); `FdtFilter.FilterIsExact` says
  exactly when the filter does what it is for.
* `hart_filter_done` sets the length of the status to 7 and copies seven bytes without looking at the old length
  (`sm/machine/fdt.c:588-591`). A status of four bytes without a terminator compares equal all the same, because
  the next token starts with a zero byte, and that token is overwritten (`FdtHart.FourByteStatus`); of a status of
  more than eight bytes the rest is read as tokens (`FdtHart.TwelveByteStatus`). `FdtHart.MaskedBody` and
  `FdtHart.SlackOfValue` say exactly when the scan of the node is otherwise unchanged.

## Model

| member | source | states |
|---|---|---|
| Sc.Reduce | common/ed25519/sc.c:35-347 | for every 64-byte input the first 32 bytes become exactly the little-endian value modulo the group order l, canonical, and the other bytes stay; no intermediate leaves 64 bits |
| Sc.MulAdd | common/ed25519/sc.c:362-809 | for all 32-byte a, b, c the 32 output bytes are exactly (ab + c) mod l, canonical, with no 64-bit overflow |
| Bytes.Load3 | common/ed25519/sc.c:4-12 | three loaded bytes are a 24-bit field of the little-endian value of the buffer |
| Bytes.Load4 | common/ed25519/sc.c:14-24 | four loaded bytes are a 32-bit field of the little-endian value of the buffer |
| Sc.Load24 | common/ed25519/sc.c:36-59 | unpacking: the 24 limbs have the value of the 64 bytes and the bounds that the carries need |
| Sc.Load12 | common/ed25519/sc.c:363-398 | unpacking of a 32-byte operand: the 12 limbs have its value, the top limb has up to 25 bits |
| ScLimbs.Carry | common/ed25519/sc.c:120-122 | a round-to-nearest carry keeps the value and leaves a limb of at most 2^20 in absolute value |
| ScLimbs.FloorCarry | common/ed25519/sc.c:238-240 | a floor carry keeps the value and leaves a limb in [0, 2^21) |
| ScLimbs.Fold | common/ed25519/sc.c:78-84 | folding limb i subtracts a multiple of l from the value and clears the limb; the six receiving limbs stay bounded |
| ScLimbs.NearZero | common/ed25519/sc.c:188-237 | after the last round-to-nearest carries and the fold of limb 12 the value lies strictly between -2^252 and 2^252 |
| ScLimbs.SignLimb | common/ed25519/sc.c:238-273 | the carry out of limb 11 after the first floor pass is -1 for a negative value and 0 otherwise |
| ScLimbs.FinishLimbs | common/ed25519/sc.c:238-313 | the two floor passes around the last fold turn a value V near zero into V or V + l, in [0, l), with canonical limbs |
| ScLimbs.ReduceLimbs | common/ed25519/sc.c:78-313 | the tail that sc_reduce and sc_muladd share leaves exactly the value modulo l in canonical limbs |
| ScProduct.Columns | common/ed25519/sc.c:447-470 | each of the 23 columns is the sum of its products (plus the limb of c) and fits in 64 bits |
| ScDot.RowsValue | common/ed25519/sc.c:447-469 | the columns of the schoolbook product have the value of the product of the two limb vectors |
| Sc.ColumnsValue | common/ed25519/sc.c:447-470 | read as limbs, the columns have the value of ab + c |
| Sc.CarryColumns | common/ed25519/sc.c:471-539 | the 23 balanced carries keep the value and bring every limb within the bound of the folds |
| Bytes.OrByteField | common/ed25519/sc.c:317-346 | a byte that straddles two limbs is the bit field it should be: the two parts of the or do not overlap |
| Sc.Pack | common/ed25519/sc.c:315-346 | the 32 bytes packed from canonical limbs have their value |
| Fe.Mul | common/ed25519/fe.c:524-765 | under the stated input bounds the result is congruent to f g modulo 2^255 - 19, within 1.01*2^25 / 1.01*2^24, also when h is f or g; no 32-bit or 64-bit overflow |
| Fe.Square | common/ed25519/fe.c:982-1127 | fe_sq(f) has limb for limb the result of fe_mul(f, f) |
| Fe.Square2 | common/ed25519/fe.c:1145-1300 | fe_sq2(f) is congruent to 2 f^2 within the stated bounds |
| Fe.Add | common/ed25519/fe.c:81-123 | the sum limb by limb, for any operand bounds that fit 32 bits; the output bound is the sum of the bounds |
| Fe.Sub | common/ed25519/fe.c:1315-1357 | the difference limb by limb, with the same relaxed bounds |
| Fe.Neg | common/ed25519/fe.c:846-878 | the negation limb by limb |
| FeLimbs.ColumnsValue | common/ed25519/fe.c:691-700 | the ten columns, with their factors 2, 19 and 38, weigh as much as f g modulo 2^255 - 19 |
| FeLimbs.CarriedBounds | common/ed25519/fe.c:701-753 | the carry chain on bounded columns leaves limbs within 1.01*2^25 / 1.01*2^24 |
| FeLimbs.CarriedValue | common/ed25519/fe.c:701-753 | the carry chain changes the value by exactly 2^255 - 19 times the carry out of the top limb |
| FeLimbs.CarryChain | common/ed25519/fe.c:701-753 | the statements of the carry chain compute that chain without overflow |
| FeBytes.CascadeIsDivision | common/ed25519/fe.c:1408-1418 | the ten-step floor cascade is one floor division of the whole value by 2^255 |
| FeBytes.QuotientByPrime | common/ed25519/fe.c:1362-1384 | the floor of 2^-255 (h + 19 2^-25 h9 + 1/2) is the floor of h / p, for h in the stated range |
| FeBytes.BoundsPassPrime | common/ed25519/fe.c:1366-1371 | an input within the stated bounds with |h| > p, against the comment in the code |
| FeBytes.Quotient | common/ed25519/fe.c:1408-1418 | the cascade computes floor(h / p), which lies in -2..1 |
| FeBytes.Freeze | common/ed25519/fe.c:1408-1450 | adding 19 q and carrying leaves the canonical limbs of h mod p |
| FeCodec.ToBytes | common/ed25519/fe.c:1386-1491 | the 32 output bytes are the unique representative of h in [0, p) |
| FeCodec.FromBytes | common/ed25519/fe.c:297-360 | the result is congruent to the low 255 bits of the input, within 1.01*2^25 / 1.01*2^24 |
| FeCodec.Recode | common/ed25519/fe.c:297-360 | fe_tobytes after fe_frombytes is the low 255 bits modulo p, and the identity on canonical encodings |
| FeCodec.IsNegative | common/ed25519/fe.c:460-465 | the parity of the canonical representative |
| FeCodec.IsNonzero | common/ed25519/fe.c:478-520 | true if and only if f is not a multiple of p |
| FeSelect.Cmov | common/ed25519/fe.c:134-188 | f becomes g if b is 1 and stays if b is 0 |
| FePower.Invert | common/ed25519/fe.c:364-448 | the result is z^(p-2) modulo p through all squaring loops and reused temporaries |
| FePower.Pow22523 | common/ed25519/fe.c:881-964 | the result is z^(2^252-3) modulo p |
| FePower.Ladder | common/ed25519/fe.c:392-440 | the middle of both addition chains goes from the exponent 2^5 - 1 to 2^250 - 1 |
| FePower.InverseByFermat | common/ed25519/fe.c:364-448 | where every power e + 1 of a number that is not 0 is 1, the power e inverts; for e = p - 2 that is Fermat's little theorem and fe_invert |
| Ge.Add | common/ed25519/ge.c:9-22 | every fe_mul and fe_sq operand of ge_add is within its bounds; the completed coordinates in terms of the operands |
| Ge.P2Dbl | common/ed25519/ge.c:259-271 | the same for ge_p2_dbl |
| GeGroup.AddPoint | common/ed25519/ge.c:9-22 | ge_add represents the sum of two group elements, which lies on the curve because the operands do |
| GeGroup.SubPoint | common/ed25519/ge.c:441-455 | ge_sub represents the difference, on the curve |
| GeGroup.MAddPoint | common/ed25519/ge.c:188-202 | ge_madd represents the sum with a precomputed element, on the curve |
| GeGroup.MSubPoint | common/ed25519/ge.c:207-221 | ge_msub represents the difference, on the curve |
| GeGroup.DoubleP2 | common/ed25519/ge.c:259-271 | ge_p2_dbl represents the double, on the curve |
| GeGroup.DoubleP3 | common/ed25519/ge.c:286-290 | ge_p3_dbl represents the double, on the curve |
| GeGroup.ToP2 | common/ed25519/ge.c:227-231 | the conversion to projective coordinates keeps the element and Z stays non-zero |
| GeGroup.ToP3 | common/ed25519/ge.c:239-244 | the conversion to extended coordinates keeps the element and Z stays non-zero |
| GeGroup.ToCached | common/ed25519/ge.c:302-307 | the conversion to cached coordinates keeps the element |
| Edwards.AddFormula | common/ed25519/ge.c:9-22 | the formulas of ge_add and ge_madd give the affine sum of section 5.1.4 of RFC 8032, with non-zero denominators |
| Edwards.SubFormula | common/ed25519/ge.c:441-455 | the formulas of ge_sub and ge_msub give the affine difference |
| Edwards.DoubleFormula | common/ed25519/ge.c:259-271 | the formulas of ge_p2_dbl give the affine double |
| Edwards.Constants | common/ed25519/ge.c:298-300 | the limb constants satisfy 121666 d = -121665 and d2 = 2 d modulo p |
| CurveClosure.OnCurveClosed | common/ed25519/ge.c:9-22 | the addition law maps two points of the curve to a point of the curve: the equation is proved from the formulas, not assumed |
| CurveClosure.SumOn | common/ed25519/ge.c:9-22 | sums of group elements on the curve are on the curve, so that every operation below keeps the equation |
| CurveClosure.ResidueIdentity | common/ed25519/ge.c:9-22 | the polynomial identity behind it: the scaled defect of the sum in terms of the defects of the operands |
| CurveClosure.NeutralLaw | common/ed25519/ge.c:9-22 | the addition law has (0, 1) as its neutral element, which lies on the curve |
| CurveClosure.InverseLaw | common/ed25519/ge.c:441-455 | by the law, (x, y) and (-x, y) add up to the neutral element |
| Scalars.SMulOn | common/ed25519/ge.c:67-130 | every integer multiple of a point of the curve is on the curve; of the tables only the base point needs it as a hypothesis |
| PointEncoding.ExtendedEquation | common/ed25519/ge.c:239-244 | coordinates that a point of the curve fills satisfy XY = ZT and the projective curve equation |
| PointEncoding.ExtendedInvariant | common/ed25519/ge.c:239-244 | every point that an operation leaves in extended coordinates satisfies XY = ZT and the projective curve equation, with Z not zero |
| PointEncoding.EncodingParts | common/ed25519/ge.c:321-330 | the encoding determines y modulo p and the parity of x |
| PointEncoding.EncodeP3 | common/ed25519/ge.c:321-330 | the 32 bytes are y modulo p with the parity of x in the top bit (section 5.1.2 of RFC 8032) |
| PointEncoding.EncodeP2 | common/ed25519/ge.c:458-467 | the same for projective coordinates |
| Digits.Slide | common/ed25519/ge.c:25-58 | every digit is zero or odd and at most 15, non-zero digits are at least 5 places apart, and for a < 2^255 the digits have the value a |
| Digits.NoOverflow | common/ed25519/ge.c:44-52 | if the ripple of a borrow found only ones up to index 255 the value would be at least 2^255 |
| Digits.Borrow | common/ed25519/ge.c:41-52 | a borrow with its ripple keeps the value and the shape of the digits done so far |
| DoubleScalarMult.BuildTable | common/ed25519/ge.c:77-98 | the table holds A, 3A, 5A, .., 15A |
| DoubleScalarMult.Turn | common/ed25519/ge.c:108-129 | one turn of the descending loop doubles r and adds the two digits, keeping r the sum over j >= i of (a_j A + b_j B) 2^(j-i) |
| DoubleScalarMult.DoubleScalarmultVartime | common/ed25519/ge.c:67-130 | r is a A + b B for all scalars below 2^255, in any group with the laws of the curve; all table indices are in 0..7 |
| Radix16.Recode | common/ed25519/ge.c:394-411 | the signed radix-16 digits keep the value, lie in -8..8 if a[31] <= 127, and never leave a signed char |
| Radix16.Equal | common/ed25519/ge.c:333-341 | 1 if the two bytes are equal, 0 otherwise, by wrap-around of an unsigned subtraction |
| Radix16.Negative | common/ed25519/ge.c:343-347 | 1 for a negative digit, 0 otherwise |
| BaseScalarMult.Magnitude | common/ed25519/ge.c:359-359 | the masked subtraction computes the absolute value |
| BaseScalarMult.Select | common/ed25519/ge.c:356-375 | t becomes b times the row's point for -8 <= b <= 8 |
| BaseScalarMult.Interleaved | common/ed25519/ge.c:414-434 | the odd digits times 16 and the even digits together have the value of all digits |
| BaseScalarMult.Pass | common/ed25519/ge.c:414-418 | a pass over every other digit adds their sum times the base point |
| BaseScalarMult.Sixteenfold | common/ed25519/ge.c:420-426 | the four doublings multiply by 16 |
| BaseScalarMult.ScalarmultBase | common/ed25519/ge.c:386-434 | h is a B whenever a[31] <= 127 |
| Ed25519.ClampedBytes | common/ed25519/keypair.c:10-12 | clamping the first and last byte sets bit 254, clears bit 255 and the low three bits and keeps every other bit |
| Ed25519.ClampedFacts | common/ed25519/keypair.c:10-12 | a clamped scalar is a multiple of 8 between 2^254 and 2^255 |
| Ed25519.ExpandSeed | common/ed25519/keypair.c:9-12 | the private key is the hash of the seed with the low three bits of byte 0 and the top bit of byte 31 cleared and the next one set; its scalar is a multiple of 8 in [2^254, 2^255) |
| Ed25519.CreateKeypair | common/ed25519/keypair.c:6-16 | the public key encodes the multiple of the base point by the first half of the private key, which is the clamped hash of the seed |
| Ed25519.VerificationEquation | common/ed25519/sign.c:7-31 | S B = R + k A for R = r B, A = a B and S = (k a + r) mod l in any abelian group where l B = 0 |
| Ed25519.ReducedTop | common/ed25519/sign.c:18-19 | a reduced scalar has a last byte below 128, as ge_scalarmult_base demands |
| Ed25519.Nonce | common/ed25519/sign.c:13-18 | r is the hash of the prefix and the message modulo l |
| Ed25519.Challenge | common/ed25519/sign.c:22-28 | k is the hash of the encoded point, the public key and the message modulo l |
| Ed25519.Sign | common/ed25519/sign.c:7-31 | the signature is the encoding of R = r B and S = (k a + r) mod l < l, and S B = R + k A if l B = 0 |
| Ed25519.SignWithNewKey | common/ed25519/sign.c:7-31 | a signature made with a new key pair satisfies S B = R + k A for the point A that the public key encodes |
| Keccak.RotcTable | common/sha3/sha3.c:24-27 | the rotation table is the sequence (t+1)(t+2)/2 mod 64 of section 3.2.2 of FIPS 202 |
| Keccak.PilnTable | common/sha3/sha3.c:28-31 | the permutation table is the walk (x, y) to (y, 2x + 3y) over the lanes |
| Keccak.OneCycle | common/sha3/sha3.c:28-31 | that walk is one cycle of 24 lanes that meets every lane but lane 0 exactly once |
| Keccak.RoundConstants | common/sha3/sha3.c:14-23 | the round constants are those of the shift register of section 3.2.5 of FIPS 202 |
| Keccak.ThetaStep | common/sha3/sha3.c:53-61 | the in-place theta is the mapping of section 3.2.1, bit by bit: a bit is flipped if the columns (x - 1, z) and (x + 1, z - 1) hold an odd number of ones |
| Keccak.ThetaBits | common/sha3/sha3.c:53-61 | theta on bits, as section 3.2.1 gives it |
| Keccak.RhoPiStep | common/sha3/sha3.c:63-70 | the loop with a single temporary equals rho followed by pi (sections 3.2.2 and 3.2.3) |
| Keccak.RhoPiLane | common/sha3/sha3.c:63-70 | rho and pi together move each lane of the walk one step, rotated by its triangular number |
| Keccak.RotationBits | common/sha3/sha3.h:15-15 | ROTL64 by n moves bit z to bit z + n modulo 64 |
| Keccak.RhoPiBits | common/sha3/sha3.c:63-70 | rho and pi on bits, along the two tables of the source; lane 0 stays |
| Keccak.ChiStep | common/sha3/sha3.c:72-78 | the in-place chi is the mapping of section 3.2.4, bit by bit: a bit is flipped if its right neighbour is 0 and the next one is 1 |
| Keccak.ChiBits | common/sha3/sha3.c:72-78 | chi on bits, as section 3.2.4 gives it |
| Keccak.IotaBits | common/sha3/sha3.c:80-81 | iota flips the bits of lane 0 that the constant of the round has |
| Keccak.AllRounds | common/sha3/sha3.c:50-82 | the permutation is 24 times theta, rho, pi, chi and iota, in this order, with the constants in order |
| Keccak.Keccakf | common/sha3/sha3.c:50-82 | 24 rounds in place are Keccak-f[1600] |
| Sha3.PlacedByte | common/sha3/sha3.c:125-125 | an exclusive or with st.b[i] changes that byte of the lanes and no other |
| Sha3.LaneBytes | common/sha3/sha3.c:125-127 | byte 8 l + k of the state is the byte of lane l with the weight 256^k |
| Sha3.LanesOfBytes | common/sha3/sha3.c:125-127 | the byte view of the state determines the lanes |
| Sha3.BytesOfLanes | common/sha3/sha3.c:125-127 | every string of 200 bytes is the byte view of its lanes |
| Sha3.Context.Init | common/sha3/sha3.c:103-114 | the context has absorbed the empty message; the rate is 200 - 2 mdlen |
| Sha3.Context.Update | common/sha3/sha3.c:118-134 | a context that absorbed m has absorbed m followed by the data, whatever the chunking; 0 <= pt < rsiz |
| Sha3.Context.Pad | common/sha3/sha3.c:142-143 | the bytes 0x06 and 0x80 are the padding of the last block, also when they coincide |
| Sha3.Context.Final | common/sha3/sha3.c:138-151 | the output is the digest of everything absorbed |
| Sha3.Hash | common/sha3/sha3.c:155-164 | the output is the digest of the input |
| Sha3.DigestIsSha3 | common/sha3/sha3.c:146-148 | the bytes copied out are the sponge output of FIPS 202 (capacity 2 mdlen, padding after the suffix) as long as one block holds them |
| Sha3.AbsorbStep | common/sha3/sha3.c:124-130 | one block absorbed: its bytes are xored into the first bytes of the state, and the permutation follows |
| Sha3.DigestBytes | common/sha3/sha3.c:146-148 | byte i of the digest is byte i of the state that absorbed the message and its padding at 200 - 2 mdlen bytes a block |
| Sha3.PaddingBits | common/sha3/sha3.c:142-143 | bit by bit the padding is the suffix 01 and pad10*1 (sections 5.1 and 6.1) and fills the block |
| Sha3.AbsorbByte | common/sha3/sha3.c:124-130 | absorbing byte by byte is absorbing block by block |
| AesTables.RsboxSbox | common/aes/aes.c:80-115 | rsbox undoes sbox on every byte |
| AesTables.SboxRsbox | common/aes/aes.c:80-115 | sbox undoes rsbox on every byte |
| AesTables.SboxIsAffineInverse | common/aes/aes.c:80-96 | every sbox entry is the affine image of the multiplicative inverse in GF(2^8) (section 5.1.1 of FIPS 197) |
| AesTables.XtimeLinear | common/aes/aes.c:300-303 | xtime is linear |
| AesTables.MultiplyIsProduct | common/aes/aes.c:332-337 | the macro Multiply is multiplication in GF(2^8) for the factors used |
| AesTables.UnmixedMixed | common/aes/aes.c:344-360 | the matrix of InvMixColumns inverts that of MixColumns on every column |
| AesCipher.RowsShift | common/aes/aes.c:272-298 | row r moves r columns to the left |
| AesCipher.InvRowsShift | common/aes/aes.c:377-403 | row r moves r columns to the right |
| AesCipher.AddRoundKeyInPlace | common/aes/aes.c:243-253 | exclusive or of the round key, in place |
| AesCipher.SubBytesInPlace | common/aes/aes.c:257-267 | the S-box on every byte, in place |
| AesCipher.ShiftRowsInPlace | common/aes/aes.c:272-298 | ShiftRows in place through one temporary |
| AesCipher.MixColumnsInPlace | common/aes/aes.c:306-319 | the xtime form of MixColumns, in place, is the matrix of section 5.1.3 of FIPS 197 |
| AesCipher.InvMixColumnsInPlace | common/aes/aes.c:344-360 | InvMixColumns in place is the matrix of section 5.3.3 |
| AesCipher.InvSubBytesInPlace | common/aes/aes.c:365-375 | the inverse S-box on every byte, in place |
| AesCipher.InvShiftRowsInPlace | common/aes/aes.c:377-403 | InvShiftRows in place |
| AesCipher.CipherInPlace | common/aes/aes.c:407-430 | Cipher in place is the cipher of section 5.1 and leaves the rest of the buffer |
| AesCipher.CipherStates | common/aes/aes.c:407-430 | the cipher byte by byte: each byte of each round is the mixed bytes of its shifted and substituted column and its byte of the round key, and the last round does not mix |
| AesCipher.InvCipherInPlace | common/aes/aes.c:432-455 | InvCipher in place is the inverse cipher of section 5.3 |
| AesCipher.InvRoundsUndo | common/aes/aes.c:432-455 | after going back to round n the state is the shifted and substituted state of round n |
| AesCipher.InvCipherUndoes | common/aes/aes.c:407-455 | InvCipher undoes Cipher for every state and every array of round keys |
| AesModes.RconPowers | common/aes/aes.c:119-120 | Rcon[i] is {02} to the power i - 1 |
| AesModes.KeyExpansion | common/aes/aes.c:152-223 | the round keys are the key schedule of section 5.2: the key, and then every byte by its rule |
| AesModes.ScheduleBytes | common/aes/aes.c:152-223 | the key schedule byte by byte: the byte of the word four before, and the byte of the word before, in every fourth word rotated, substituted and marked with a power of {02} |
| AesModes.ScheduleBackwards | common/aes/aes.c:167-222 | any four consecutive words of the schedule determine the key |
| AesModes.Context.InitIv | common/aes/aes.c:230-234 | the context holds the key schedule of the key and the Iv |
| AesModes.CbcEncrypt | common/aes/aes.c:495-509 | CBC encryption in place of any whole number of blocks: each block is the cipher of its plaintext xored with the ciphertext block before it, or with Iv; Iv becomes the last ciphertext block |
| AesModes.CbcDecrypt | common/aes/aes.c:511-524 | CBC decryption in place: each block is its inverse cipher xored with the ciphertext block before it, or with Iv; Iv becomes the last ciphertext block |
| AesModes.EncryptedBlocks | common/aes/aes.c:486-508 | block n of a CBC ciphertext, with the exclusive or written out |
| AesModes.DecryptedBlocks | common/aes/aes.c:486-523 | block n of a CBC plaintext, with the exclusive or written out |
| AesModes.CbcRoundTrip | common/aes/aes.c:495-524 | decrypting from the same Iv undoes encrypting, for any key and any whole number of blocks |
| AesModes.CbcEncryptedSplit | common/aes/aes.c:507-508 | two calls with the saved Iv between them encrypt like one call |
| AesModes.CbcDecryptedSplit | common/aes/aes.c:520-520 | two calls with the saved Iv between them decrypt like one call |
| AesModes.LastBlockSplit | common/aes/aes.c:507-508 | the Iv that two calls leave is the one that a single call leaves |
| AesModes.Increment | common/aes/aes.c:548-558 | the counter becomes the next one, with carries out of bytes that are 255 |
| AesModes.NextValue | common/aes/aes.c:548-558 | the next counter is one more, modulo 256 to the number of bytes |
| AesModes.PlusValue | common/aes/aes.c:548-558 | after n blocks the big-endian counter is n more modulo 2^128 |
| AesModes.CtrXcrypt | common/aes/aes.c:533-564 | byte i is xored with byte i mod 16 of the cipher of the counter i / 16 places on; Iv advances by ceil(length / 16) modulo 2^128 |
| AesModes.CtrTwice | common/aes/aes.c:532-564 | applying CTR twice from the same Iv restores data of any length |
| AesModes.CtrSplit | common/aes/aes.c:532-564 | calls on whole blocks, with the Iv kept between them, are one call |
| FdtTree.BswapTwice | sm/machine/fdt.c:6-11 | bswap undoes itself |
| FdtTree.ByteWeights | sm/machine/fdt.c:63-66 | the four bytes of a word as the source sees them through a pointer to char |
| FdtTree.BswapBytes | sm/machine/fdt.c:6-11 | bswap reverses the four bytes of a word |
| FdtTree.PropBytes | sm/machine/fdt.c:47-52 | a property in memory: the token 3, the length and the name offset, big-endian, and the value |
| FdtTree.SampleBlock | sm/machine/fdt.c:42-76 | the words of a small tree, written out |
| FdtTree.WalkKidsIsFold | sm/machine/fdt.c:26-83 | whatever the callbacks answer, the state is the fold of the callbacks over the pre-order trace of the tree: open, properties, one done, children, close |
| FdtTree.DoneAfterProps | sm/machine/fdt.c:58-76 | behind the opening of a node nothing but its properties is reported before its done |
| FdtTree.OncePerNode | sm/machine/fdt.c:58-76 | a trace has as many openings, as many dones and as many closings as there are nodes |
| FdtScan.Strlen | sm/machine/fdt.c:63-66 | a node name takes strlen / 4 + 1 words |
| FdtScan.ReadProp | sm/machine/fdt.c:48-55 | the fields of a property and the place of the next token |
| FdtScan.Erase | sm/machine/fdt.c:69-69 | exactly the words between the two cursors become NOPs |
| FdtScan.VisitChild | sm/machine/fdt.c:59-71 | a child is opened, scanned and closed; its words stay or become NOPs as close says, and the cursor ends up behind it |
| FdtScan.ScanHelper | sm/machine/fdt.c:26-83 | on any serialised body, with NOPs anywhere between tokens, the scan ends at its terminator with the state and the words of the walk; unknown tokens end it like FDT_END |
| FdtScan.Scan | sm/machine/fdt.c:85-97 | a blob with another magic or a newer version is left alone; otherwise the callbacks see exactly the trace of the tree |
| FdtScan.UnderstoodBytes | sm/machine/fdt.c:89-91 | the blobs that are scanned, by their bytes: the magic number d00dfeed and a last compatible version of at most 17 |
| FdtFilter.WalkCompatProps | sm/machine/fdt.c:513-519 | the properties of a node set kill to its depth if one matches and nothing above is to be deleted |
| FdtFilter.WalkFree | sm/machine/fdt.c:507-530 | what the callbacks of filter_compat delete, from any depth below the sentinel |
| FdtFilter.FilterIsExact | sm/machine/fdt.c:507-547 | exactly the matching subtrees are deleted if and only if fewer than 999 nodes that do not match are nested in each other |
| FdtFilter.SentinelDeletes | sm/machine/fdt.c:524-525 | an input where the sentinel deletes a node that does not match: 999 nested nodes, a well-formed tree |
| FdtFilter.NamesCompatIs | sm/machine/fdt.c:513-517 | the test of the source is the one on bytes |
| FdtFilter.CompatibleString | sm/machine/fdt.c:516-516 | the bytes of the name compared with |
| FdtFilter.FilterWords | sm/machine/fdt.c:68-70 | every token keeps its position: the words of deleted subtrees are NOPs, all others are unchanged |
| FdtFilter.FilterTrace | sm/machine/fdt.c:26-83 | a rescan reports the original trace without the events of the deleted subtrees, at the same positions |
| FdtFilter.FilterClean | sm/machine/fdt.c:532-547 | what is left is a well-formed tree without a matching node |
| FdtFilter.FilterOfClean | sm/machine/fdt.c:532-547 | a second pass deletes nothing |
| FdtFilter.DeletedKids | sm/machine/fdt.c:524-530 | whatever the sentinel deletes, what is left is a well-formed tree |
| FdtFilter.FilterCompat | sm/machine/fdt.c:532-547 | for the test on bytes (a property called "compatible" with the string in its list) the blob holds a well-formed tree again, and exactly the nodes with such a property and the nodes below them are gone if and only if fewer than 999 other nodes are nested |
| FdtFilter.FilterThenScan | sm/machine/fdt.c:532-547 | erase, then rescan: any later scan sees the original trace without the events of the nodes with a "compatible" property that lists the string and of the nodes below them |
| FdtProps.StringListIndex | sm/machine/fdt.c:125-136 | the index of the first string equal to str, -1 if there is none |
| FdtProps.FirstIndex | sm/machine/fdt.c:125-136 | the result is an equal string, and no string before it (or none at all) is equal |
| FdtProps.StringsJoined | sm/machine/fdt.c:130-134 | the strings visited, each with its terminator, make up the list |
| FdtProps.ListHas | sm/machine/fdt.c:125-136 | an index is found exactly if the string stands, with a terminator, at the start of the value or behind a terminator |
| FdtProps.GetCells | sm/machine/fdt.c:109-123 | the number that the cells spell, modulo 2^64, and the place behind them |
| FdtProps.CellsAppend | sm/machine/fdt.c:109-123 | each further cell counts 2^32 times less and is read with its bytes reversed |
| FdtProps.TwoCells | sm/machine/fdt.c:109-123 | up to two cells nothing is lost |
| FdtHart.Strcmp | sm/machine/fdt.c:588-588 | byte by byte: true exactly when the string at that place of the block is the given one |
| FdtHart.Strcpy | sm/machine/fdt.c:589-589 | byte by byte: the string and its terminator over the bytes of the block, no other byte changes |
| FdtHart.OkayString | sm/machine/fdt.c:588-588 | the bytes compared with are those of "okay" |
| FdtHart.MaskedString | sm/machine/fdt.c:589-589 | the bytes copied are those of "masked" |
| FdtHart.RenamedBytes | sm/machine/fdt.c:588-592 | the rewritten words read "masked" as a string and 7 as a length, and every other byte stays |
| FdtHart.HartFilterDone | sm/machine/fdt.c:580-593 | which hart is masked, where the assertions stop, and the bytes afterwards: the string, the length and all others |
| FdtHart.ReadBody | sm/machine/fdt.c:42-57 | on a serialised body the report of the property loop is the trace of its properties |
| FdtHart.SameReport | sm/machine/fdt.c:43-46 | two places of a block give the same report if and only if only NOPs lie between them |
| FdtHart.MaskedReads | sm/machine/fdt.c:588-592 | after the rewriting everything behind the property is reported as before if and only if the words between the new end of the value and the old one are NOPs, in any block |
| FdtHart.MaskedBody | sm/machine/fdt.c:588-592 | the same for a serialised body, with the resulting trace: the masked status in place of the old one, every other property as before, and the same end |
| FdtHart.SlackOfValue | sm/machine/fdt.c:588-592 | that condition on the value: words behind its second are NOPs, or a one-word value has a NOP token behind it |
| FdtHart.MaskedItem | sm/machine/fdt.c:588-592 | under that condition a value of two words or more is rewritten to a well-formed property and NOPs |
| FdtHart.FourByteStatus | sm/machine/fdt.c:588-592 | a failing input: a four-byte "okay" without terminator compares equal, and the next token is overwritten |
| FdtHart.TwelveByteStatus | sm/machine/fdt.c:588-592 | a failing input: the third word of a twelve-byte value is read as a token |

## Left out

- The contents of `common/ed25519/precomp_data.h`: the tables are hypotheses.
- `ge_frombytes_negate_vartime` (point decompression), `fe_mul121666` and `fe_cswap`: no modelled function calls them.
- DoubleScalarMult.DoubleScalarmultVartime: says nothing about scalars of 2^255 and more.
- BaseScalarMult.ScalarmultBase: says nothing about a[31] > 127, which the source excludes.
- Sha3.Context.Init: digests of 100 bytes and more, for which the rate would not be positive, are excluded.
- Sha3.DigestIsSha3: digests longer than a block (more than 66 bytes) are not those of FIPS 202, because the source never squeezes twice.
- Ed25519.Sign: the signature buffer does not overlap the message or the keys.
- AesModes.CbcEncrypt: lengths that are not whole blocks, which `common/aes/aes.h` excludes.
- AesModes.CtrSplit: a call that ends inside a block drops the rest of its keystream, so that splitting there is not one call.
- FdtScan.ScanHelper: only well-formed blocks; the source does not check bounds, so that it has no meaning on others. A property after a child, on which the source asserts, is not well-formed.
- FdtScan.ReadProp: property lengths that do not fit the source's signed `len` with its rounding are not well-formed.
- FdtScan.Scan: the structure block starts at a multiple of four bytes, as the source's word accesses need.
- FdtProps.StringListIndex: only lists whose last byte is a terminator; on others the source reads past the value.
- FdtFilter.FilterCompat: property names in the terminated strings block and "compatible" values with a final terminator; on others the source's strcmp reads past them.
- FdtHart.HartFilterDone: a hart number of 64 and more, for which the shift of the mask has no meaning in C. It is modelled on its own and not as a callback during a scan; `hart_filter_prop` is left out, because it depends on cell counts.
- The cell counts that the scanner keeps in each node: siblings share one record, and the properties proved here do not depend on them.
- AES with 192 or 256 bit keys, the big-endian branches of `sha3.c`: other configurations.
- `query_mem`, `query_harts`, `query_clint`, `query_plic`, `filter_plic` and `fdt_print`: they set up hardware or print.
- `sm/monitor`, emulation, traps, paging, locks, devices, boot code and assembly.
- Side channels: that no branch or index depends on a secret is not stated.
