# Verified model of the firmware's cryptography and of the controller's log

This project models two parts of the repository in Dafny and proves what they are for: the TinyCrypt library that the
Bluetooth firmware carries (`ecc.c`, `ecc_dsa.c`, `ecc_dh.c`, `aes_encrypt.c`, `aes_decrypt.c`, `ctr_mode.c`, `ccm_mode.c`,
`cmac_mode.c`, `sha256.c`, `hmac.c`, `utils.c`) and the log ring of the controller (`controller/log.c`).

The code is modelled in its own form. Word arrays and byte buffers are arrays changed in place, with the aliasing the C
code allows; the structs are classes with a ghost field for what has been fed in so far; loops are loops. Each method is
proved against a function or a relation on values, and the laws about those are lemmas.

* **P-256.** The files `Words` to `P256` take multi-word arithmetic from single carries to the exact product, long-division
  reduction, the binary inverse and the fast reduction, all against the integers. Words are integers in [0, 2^32) and every
  wrap-around is written out. The prime p and the coefficient b are the numbers that the code's words stand for; most
  proofs hold them as symbols. `Field`, `Formulas` and `PointOps` are the arithmetic modulo p and the co-Z point formulas;
  `Closure` proves that the formulas stay on the curve, with no assumption about which points meet; `Refine` and `Doubling`
  prove that they compute chord and tangent. `CurveGroup` to `EccPoint` carry that through the ladder, `Keys` and
  `ValidPoint` through key generation and key agreement, `Shamir`, `Ecdsa`, `Verify` and
  `Collision` through signatures; `RandomInt` draws the random numbers for both.
* **Symmetric primitives.** `Gf256`, `Sbox`, `Aes`, `AesSteps` and `AesCipher` are AES-128 and its inverse. `Ctr`, `Cbc`,
  `Ccm`, `CcmMode`, `Cmac` and `CmacMode` are the modes, for an arbitrary block function. `Compression`,
  `Sha256Constants`, `Sha256`, `HashState` and `Hmac` are the hash and the keyed hash. What the definitions compute is fixed
  field by field and bit by bit (`Sha256Bits`), and by published examples, stated as lemmas: `AesVector` (FIPS
  197), `Sha256Vector` (FIPS 180-2) and `CcmVector` (RFC 3610).
* **The log.** `Log` relates the ring of entries and its reading position to the history of all entries added.

Results that do not follow the documentation of the code:

* `EccPoint_mult` does not serve every scalar. With the scalar regularised, one ladder step meets opposite points exactly
  when the key is 0, 1, -1 or -2 modulo n; the result is then zero, and so it is when the abscissa of the point is zero;
  the curve has such a point (`Keys.NoSecretAtZero`), which the key check lets through.
  Those four keys make `uECC_compute_public_key` and `uECC_shared_secret` fail, although the former announces the range
  [1, n - 1], and the same nonces make `uECC_sign_with_k` fail.
* `uECC_sign_with_k` stores x(kG) without reducing it modulo n, and `uECC_verify` refuses such an r at or above n. The
  double-scalar loop of `uECC_verify` has no branch for an addition of points with equal abscissas; z becomes zero there,
  stays zero, and the signature is refused. A genuine signature is accepted exactly when r < n, s is not zero and no addition
  is of that kind; under the public key 2 G, which key generation serves, genuine signatures are refused, and
  `Collision.GenuineRefused` is one. What is accepted under a point Q of the curve other than G and -G always satisfies
  x(u1 G + u2 Q) = r modulo n. For Q = G and Q = -G the code stores (0, 0) as the sum G + Q, which can spoil the answer when
  the scalars have a common one bit (`Collision.BaseKeyRefused`); key generation never yields these two.
* CCM decryption applies the payload limit of 65536 bytes to the payload and the tag together, so the longest payloads
  that encryption takes cannot be decrypted. The round trip holds exactly below that limit.
* A CMAC update that begins inside a block and ends exactly at its end leaves nothing for `tc_cmac_final`, which then adds
  a padding block. The streamed tag is the CMAC of the message exactly when the last nonempty update is not of that kind.

## Model

| member | source | states |
|---|---|---|
| Vli.VliIsZero | backend/bluetooth/firmware/NimBLE-Arduino/src/nimble/ext/tinycrypt/src/ecc.c:95-103 | true exactly when the number is zero |
| Vli.VliSet | backend/bluetooth/firmware/NimBLE-Arduino/src/nimble/ext/tinycrypt/src/ecc.c:145-153 | copies the number |
| Vli.VliCmpUnsafe | backend/bluetooth/firmware/NimBLE-Arduino/src/nimble/ext/tinycrypt/src/ecc.c:155-169 | the sign of the difference of the two numbers |
| Vli.VliEqual | backend/bluetooth/firmware/NimBLE-Arduino/src/nimble/ext/tinycrypt/src/ecc.c:171-182 | 0 exactly on equal numbers, 1 otherwise |
| Vli.VliSub | backend/bluetooth/firmware/NimBLE-Arduino/src/nimble/ext/tinycrypt/src/ecc.c:191-204 | result - borrow * 2^(32n) = left - right, also when the result is an operand |
| Vli.VliAdd | backend/bluetooth/firmware/NimBLE-Arduino/src/nimble/ext/tinycrypt/src/ecc.c:208-220 | result + carry * 2^(32n) = left + right, also when the result is an operand |
| Vli.VliCmp | backend/bluetooth/firmware/NimBLE-Arduino/src/nimble/ext/tinycrypt/src/ecc.c:222-229 | the subtract-and-test comparison agrees with the order of the numbers |
| Bits.VliTestBit | backend/bluetooth/firmware/NimBLE-Arduino/src/nimble/ext/tinycrypt/src/ecc.c:105-109 | the bit of the number, found in its word |
| Bits.VliNumBits | backend/bluetooth/firmware/NimBLE-Arduino/src/nimble/ext/tinycrypt/src/ecc.c:112-143 | the bit length: shifting by it leaves nothing, by one less leaves a one |
| Bits.VliRshift1 | backend/bluetooth/firmware/NimBLE-Arduino/src/nimble/ext/tinycrypt/src/ecc.c:232-243 | word by word the number is halved, the dropped bits moving into the word below |
| Bits.HalfVal | backend/bluetooth/firmware/NimBLE-Arduino/src/nimble/ext/tinycrypt/src/ecc.c:232-243 | the words written by the shift stand for half the number |
| Mult.MulAdd | backend/bluetooth/firmware/NimBLE-Arduino/src/nimble/ext/tinycrypt/src/ecc.c:245-256 | the three-word accumulator grows by the product; within the stated room nothing is lost |
| Mult.ColumnBound | backend/bluetooth/firmware/NimBLE-Arduino/src/nimble/ext/tinycrypt/src/ecc.c:259-292 | a column of m word products is at most m times the largest product of two words |
| Mult.Room | backend/bluetooth/firmware/NimBLE-Arduino/src/nimble/ext/tinycrypt/src/ecc.c:259-292 | the rest of a column, on top of the carry from the columns below, never overflows the three accumulator words |
| Mult.ColumnsAreProduct | backend/bluetooth/firmware/NimBLE-Arduino/src/nimble/ext/tinycrypt/src/ecc.c:259-292 | the column sums, weighted by powers of 2^32, make up the product of the two numbers |
| Mult.VliMult | backend/bluetooth/firmware/NimBLE-Arduino/src/nimble/ext/tinycrypt/src/ecc.c:259-292 | the 2n-word result is left * right, for every word count the accumulator admits |
| ModOps.VliModAdd | backend/bluetooth/firmware/NimBLE-Arduino/src/nimble/ext/tinycrypt/src/ecc.c:294-304 | for right below mod: the sum modulo mod, exactly that residue when left is below mod too, and otherwise congruent to it |
| ModOps.VliModSub | backend/bluetooth/firmware/NimBLE-Arduino/src/nimble/ext/tinycrypt/src/ecc.c:306-316 | for right below mod: the difference modulo mod, exactly that residue when left is below mod too, and otherwise congruent to it |
| ModOps.ShiftModulus | backend/bluetooth/firmware/NimBLE-Arduino/src/nimble/ext/tinycrypt/src/ecc.c:320-342 | the modulus shifted left by words and bits is mod times the power of two |
| Mmod.ReduceStep | backend/bluetooth/firmware/NimBLE-Arduino/src/nimble/ext/tinycrypt/src/ecc.c:344-359 | one subtraction and halving keeps the ping-pong buffer congruent and below twice the next multiple |
| Mmod.VliMmod | backend/bluetooth/firmware/NimBLE-Arduino/src/nimble/ext/tinycrypt/src/ecc.c:320-362 | result = product mod mod, for every modulus whose top word is nonzero and every double-length product |
| ModInv.WrappingModSub | backend/bluetooth/firmware/NimBLE-Arduino/src/nimble/ext/tinycrypt/src/ecc.c:432-446 | u - v modulo mod, although adding mod may overflow the top word and drop its carry |
| ModInv.VliModInvUpdate | backend/bluetooth/firmware/NimBLE-Arduino/src/nimble/ext/tinycrypt/src/ecc.c:392-406 | uv is halved modulo an odd mod, the carry of uv + mod coming back as the top bit |
| ModInv.HalfDivisors | backend/bluetooth/firmware/NimBLE-Arduino/src/nimble/ext/tinycrypt/src/ecc.c:426-431 | halving an even a keeps all common divisors, since b is odd |
| ModInv.DifferenceDivisors | backend/bluetooth/firmware/NimBLE-Arduino/src/nimble/ext/tinycrypt/src/ecc.c:432-446 | replacing a by a - b keeps all common divisors |
| ModInv.InvertStep | backend/bluetooth/firmware/NimBLE-Arduino/src/nimble/ext/tinycrypt/src/ecc.c:425-447 | each of the four branches keeps the Bezout relations and the common divisors, and lowers a + b |
| ModInv.VliModInv | backend/bluetooth/firmware/NimBLE-Arduino/src/nimble/ext/tinycrypt/src/ecc.c:408-451 | the loop ends; result * input = gcd(input, mod) modulo mod, with result < mod; zero for zero |
| P256.PValue | backend/bluetooth/firmware/NimBLE-Arduino/src/nimble/ext/tinycrypt/include/tinycrypt/ecc.h:164-169 | the words of the prime stand for 2^256 - 2^224 + 2^192 + 2^96 - 1 |
| P256.RowSumCongruent | backend/bluetooth/firmware/NimBLE-Arduino/src/nimble/ext/tinycrypt/src/ecc.c:521-620 | T + 2 S1 + 2 S2 + S3 + S4 - D1 - D2 - D3 - D4 of appendix D.2.3 of FIPS 186-4 is congruent to the 16-word product modulo p |
| P256.AddRows | backend/bluetooth/firmware/NimBLE-Arduino/src/nimble/ext/tinycrypt/src/ecc.c:526-566 | carry and result together represent the sum of the five positive rows |
| P256.SubtractRows | backend/bluetooth/firmware/NimBLE-Arduino/src/nimble/ext/tinycrypt/src/ecc.c:568-607 | carry and result together represent the sum less the four negative rows; the carry may be negative |
| P256.Correct | backend/bluetooth/firmware/NimBLE-Arduino/src/nimble/ext/tinycrypt/src/ecc.c:609-619 | both correction loops end, at the residue below p |
| P256.VliMmodFast | backend/bluetooth/firmware/NimBLE-Arduino/src/nimble/ext/tinycrypt/src/ecc.c:521-620 | result = product mod p for every 16-word product |
| Field.ModMultFast | backend/bluetooth/firmware/NimBLE-Arduino/src/nimble/ext/tinycrypt/src/ecc.c:373-380 | the product modulo p, also when the result is an operand |
| PointOps.DoubleJacobianDefault | backend/bluetooth/firmware/NimBLE-Arduino/src/nimble/ext/tinycrypt/src/ecc.c:455-500 | the in-place sequence computes the doubling formulas, the odd-halving branch included, also from unreduced X and Y |
| Doubling.DoubleRefines | backend/bluetooth/firmware/NimBLE-Arduino/src/nimble/ext/tinycrypt/src/ecc.c:455-500 | doubling yields the second point of the tangent, under the factor y z^4 |
| Closure.DoubleClosed | backend/bluetooth/firmware/NimBLE-Arduino/src/nimble/ext/tinycrypt/src/ecc.c:455-500 | the result satisfies the curve equation for the new z whenever the input does, for every input |
| PointOps.XYcZAdd | backend/bluetooth/firmware/NimBLE-Arduino/src/nimble/ext/tinycrypt/src/ecc.c:661-685 | the in-place sequence computes the co-Z addition, also for an unreduced second point, and leaves all coordinates below p |
| Refine.CoZAddRefines | backend/bluetooth/firmware/NimBLE-Arduino/src/nimble/ext/tinycrypt/src/ecc.c:661-685 | both outputs stand for the old first point and for the chord sum, under the new shared factor z (x2 - x1) |
| Closure.CoZAddClosed | backend/bluetooth/firmware/NimBLE-Arduino/src/nimble/ext/tinycrypt/src/ecc.c:661-685 | both output points satisfy the curve equation for the shared z (x2 - x1), even when x1 = x2 |
| PointOps.XYcZAddC | backend/bluetooth/firmware/NimBLE-Arduino/src/nimble/ext/tinycrypt/src/ecc.c:691-727 | the in-place sequence computes the conjugate addition and keeps all coordinates below p |
| Refine.CoZAddCRefines | backend/bluetooth/firmware/NimBLE-Arduino/src/nimble/ext/tinycrypt/src/ecc.c:691-727 | the outputs stand for the chord sums with the reflected and with the plain second point |
| Closure.CoZAddCClosed | backend/bluetooth/firmware/NimBLE-Arduino/src/nimble/ext/tinycrypt/src/ecc.c:691-727 | both outputs satisfy the curve equation for the new shared factor |
| Closure.LineMeetsCubic | backend/bluetooth/firmware/NimBLE-Arduino/src/nimble/ext/tinycrypt/src/ecc.c:455-500 | a line meets the cubic again where the three abscissas sum to the square of the slope: the identity behind closure |
| EccPoint.XYcZInitialDouble | backend/bluetooth/firmware/NimBLE-Arduino/src/nimble/ext/tinycrypt/src/ecc.c:639-659 | 2P and P under one factor, from the given initial Z or from one |
| EccPoint.LadderStart | backend/bluetooth/firmware/NimBLE-Arduino/src/nimble/ext/tinycrypt/src/ecc.c:639-659 | the ladder starts with R0 = P and R1 = 2P, whatever initial Z is used |
| Ladder.StepAddC | backend/bluetooth/firmware/NimBLE-Arduino/src/nimble/ext/tinycrypt/src/ecc.c:749 | the conjugate addition keeps R1 - R0 = P: one register holds the odd sum, the other the difference point |
| Ladder.StepAdd | backend/bluetooth/firmware/NimBLE-Arduino/src/nimble/ext/tinycrypt/src/ecc.c:750 | the addition after it yields the successor pair of the longer prefix |
| EccPoint.RunningStep | backend/bluetooth/firmware/NimBLE-Arduino/src/nimble/ext/tinycrypt/src/ecc.c:747-751 | one turn of the ladder moves from the prefix above bit i to the one that includes it |
| FinalZ.RecoverZ | backend/bluetooth/firmware/NimBLE-Arduino/src/nimble/ext/tinycrypt/src/ecc.c:756-765 | the last factor is recovered from x_P y_b / (y_P x_b (X1 - X0)) |
| FinalZ.DenominatorNonzero | backend/bluetooth/firmware/NimBLE-Arduino/src/nimble/ext/tinycrypt/src/ecc.c:756-760 | the number inverted at the end is nonzero exactly when x_P is nonzero |
| EccPoint.LastBit | backend/bluetooth/firmware/NimBLE-Arduino/src/nimble/ext/tinycrypt/src/ecc.c:753-768 | the last step and the recovered factor give the affine multiple, or exactly zero in the exceptional cases |
| EccPoint.EccPointMult | backend/bluetooth/firmware/NimBLE-Arduino/src/nimble/ext/tinycrypt/src/ecc.c:729-772 | the result is (2^256 + scalar) P whatever initial Z is used; it is zero exactly for the four exceptional scalars and for x_P = 0 |
| Scalars.PrefixRegular | backend/bluetooth/firmware/NimBLE-Arduino/src/nimble/ext/tinycrypt/src/ecc.c:729-772 | no ladder step of another scalar below n meets equal or opposite points |
| Scalars.ExceptionalPrefix | backend/bluetooth/firmware/NimBLE-Arduino/src/nimble/ext/tinycrypt/src/ecc.c:729-772 | for the scalars with 2^256 + scalar from 2n - 2 to 2n + 1 the step at bit 1 starts at (n - 1)/2 P and (n + 1)/2 P, which are opposite |
| Cusp.StepOpposite | backend/bluetooth/firmware/NimBLE-Arduino/src/nimble/ext/tinycrypt/src/ecc.c:729-772 | from opposite points the step leaves the curve for the cusp, where the final inversion yields zero |
| EccPoint.RegularizeK | backend/bluetooth/firmware/NimBLE-Arduino/src/nimble/ext/tinycrypt/src/ecc.c:774-789 | the buffer chosen by the carry is k + n or k + 2n less 2^256, even when the first buffer is k itself |
| Keys.RegularisedScalar | backend/bluetooth/firmware/NimBLE-Arduino/src/nimble/ext/tinycrypt/src/ecc.c:774-789 | 2^256 + k' = k modulo n, and it is exceptional exactly for k = 0, 1, -1, -2 modulo n |
| Keys.EccPointComputePublicKey | backend/bluetooth/firmware/NimBLE-Arduino/src/nimble/ext/tinycrypt/src/ecc.c:791-811 | the public key is d G; failure exactly for d = 0, 1, -1, -2 modulo n, with a zero result |
| Keys.BaseOnCurve | backend/bluetooth/firmware/NimBLE-Arduino/src/nimble/ext/tinycrypt/include/tinycrypt/ecc.h:161-193 | the base point satisfies the curve equation |
| ValidPoint.XSide | backend/bluetooth/firmware/NimBLE-Arduino/src/nimble/ext/tinycrypt/src/ecc.c:502-514 | x^3 - 3x + b modulo p |
| ValidPoint.CheckPoint | backend/bluetooth/firmware/NimBLE-Arduino/src/nimble/ext/tinycrypt/src/ecc.c:863-888 | 0 exactly for the finite points of the curve, and the reason otherwise |
| ValidPoint.CheckPublicKey | backend/bluetooth/firmware/NimBLE-Arduino/src/nimble/ext/tinycrypt/src/ecc.c:890-906 | 0 exactly for the finite points of the curve other than the base point, and otherwise the reason: -1 for zero, -2 for a coordinate not below p, -4 for the base point, and -3 for what is left |
| ValidPoint.ComputePublicKey | backend/bluetooth/firmware/NimBLE-Arduino/src/nimble/ext/tinycrypt/src/ecc.c:908-939 | succeeds exactly for keys from 2 to n - 3, with the point d G in the output bytes |
| Bytes.VliBytesToNative | backend/bluetooth/firmware/NimBLE-Arduino/src/nimble/ext/tinycrypt/src/ecc.c:825-835 | the words of the big-endian byte string, a partial top word included |
| Bytes.BitsStillClear | backend/bluetooth/firmware/NimBLE-Arduino/src/nimble/ext/tinycrypt/src/ecc.c:825-835 | the bits that a byte is ORed into are still clear |
| Bytes.VliNativeToBytes | backend/bluetooth/firmware/NimBLE-Arduino/src/nimble/ext/tinycrypt/src/ecc.c:814-822 | the lowest bytes of the words in big-endian order, for any number of bytes |
| Bytes.BytesRoundTrip | backend/bluetooth/firmware/NimBLE-Arduino/src/nimble/ext/tinycrypt/src/ecc.c:814-835 | words written as bytes and read back are the same words; of a word written in part the low bytes remain |
| Bytes.NumberOfNext | backend/bluetooth/firmware/NimBLE-Arduino/src/nimble/ext/tinycrypt/src/ecc.c:814-835 | the number of a byte string is its value in base 256, the first byte being the highest digit |
| Keys.PointOfParts | backend/bluetooth/firmware/NimBLE-Arduino/src/nimble/ext/tinycrypt/src/ecc.c:890-906 | of the 64 bytes of a point the first 32 are the abscissa |
| RandomInt.MaskTop | backend/bluetooth/firmware/NimBLE-Arduino/src/nimble/ext/tinycrypt/src/ecc.c:853-854 | masking the top word cuts the candidate to the bit length of the bound |
| RandomInt.GenerateRandom | backend/bluetooth/firmware/NimBLE-Arduino/src/nimble/ext/tinycrypt/src/ecc.c:837-860 | for every generator: success exactly when one of the first 64 draws, cut to that length, lies strictly between zero and the bound and no call fails before it; the result is the first such number |
| RandomInt.GivesUpExactly | backend/bluetooth/firmware/NimBLE-Arduino/src/nimble/ext/tinycrypt/src/ecc.c:843-859 | a generator that is set gives up exactly when a call fails before a candidate is taken, or when 64 candidates are rejected |
| Keys.SharedSecret | backend/bluetooth/firmware/NimBLE-Arduino/src/nimble/ext/tinycrypt/src/ecc_dh.c:144-200 | the abscissa of d Q, or failure and zero, whatever initial Z was drawn; nothing is written exactly when the generator gives up |
| Keys.SecretsAgree | backend/bluetooth/firmware/NimBLE-Arduino/src/nimble/ext/tinycrypt/src/ecc_dh.c:144-200 | both sides derive the same secret whatever random Z each draws, and when each succeeds |
| Keys.NoSecretAtZero | backend/bluetooth/firmware/NimBLE-Arduino/src/nimble/ext/tinycrypt/src/ecc_dh.c:144-200 | a valid public key, with abscissa zero, under which every private key fails although every usable key has a finite multiple of it |
| Ecdsa.Bits2Int | backend/bluetooth/firmware/NimBLE-Arduino/src/nimble/ext/tinycrypt/src/ecc_dsa.c:66-97 | the first 32 bytes of the digest as a number, which is not reduced modulo n |
| Ecdsa.DigestOfNext | backend/bluetooth/firmware/NimBLE-Arduino/src/nimble/ext/tinycrypt/src/ecc_dsa.c:66-97 | the digest is a number in base 256, and bytes after the 32nd do not count |
| Ecdsa.Unblinded | backend/bluetooth/firmware/NimBLE-Arduino/src/nimble/ext/tinycrypt/src/ecc_dsa.c:135-139 | multiplying by a blinding factor before and after the inversion leaves the inverse of k |
| Ecdsa.SignWithK | backend/bluetooth/firmware/NimBLE-Arduino/src/nimble/ext/tinycrypt/src/ecc_dsa.c:99-159 | succeeds exactly for usable nonces in range with x(kG) nonzero and a generator that does not give up; then r = x(kG) and s k = e + r d modulo n |
| Shamir.TurnStands | backend/bluetooth/firmware/NimBLE-Arduino/src/nimble/ext/tinycrypt/src/ecc_dsa.c:268-282 | a turn from the sum of the prefixes reaches the sum of the next prefixes, or its addition meets equal abscissas and z becomes zero |
| Shamir.TurnExact | backend/bluetooth/firmware/NimBLE-Arduino/src/nimble/ext/tinycrypt/src/ecc_dsa.c:268-282 | before every bit the registers stand for the sum of the prefixes if no addition has met equal abscissas so far, and otherwise z is zero and stays zero |
| Verify.ShamirLoop | backend/bluetooth/firmware/NimBLE-Arduino/src/nimble/ext/tinycrypt/src/ecc_dsa.c:258-282 | the loop ends at u1 G + u2 Q, or with z zero after an addition that met equal abscissas |
| Verify.RecoverX | backend/bluetooth/firmware/NimBLE-Arduino/src/nimble/ext/tinycrypt/src/ecc_dsa.c:243-290 | the abscissa of u1 G + u2 Q modulo n, or zero after such an addition |
| Verify.Verify | backend/bluetooth/firmware/NimBLE-Arduino/src/nimble/ext/tinycrypt/src/ecc_dsa.c:192-294 | nothing out of range is accepted; and for every public key, coordinates taken modulo p, that is a point of the curve: accepts exactly when r and s are in range, no addition meets equal abscissas and x(u1 G + u2 Q) = r modulo n, with u1 s = e and u2 s = r modulo n; for G and -G this holds when u1 and u2 have no common one bit, and the answer is no when they have the same length |
| Verify.SignatureSum | backend/bluetooth/firmware/NimBLE-Arduino/src/nimble/ext/tinycrypt/src/ecc_dsa.c:192-294 | for a signature made with key d and nonce k: u1 G + u2 Q = k G |
| Verify.SignedIsAccepted | backend/bluetooth/firmware/NimBLE-Arduino/src/nimble/ext/tinycrypt/src/ecc_dsa.c:99-294 | a signature made with a key that key generation serves is accepted exactly when r < n, s is not zero and no addition meets equal abscissas |
| Collision.CollisionNumbers | backend/bluetooth/firmware/NimBLE-Arduino/src/nimble/ext/tinycrypt/src/ecc_dsa.c:268-282 | under the key d an addition meets equal abscissas exactly when 2 (a + b d) and b1 + b2 d, their sum or their difference is a multiple of n: a and b are the prefixes of u1 and u2, b1 and b2 their next bits |
| Collision.KeyTwoCollides | backend/bluetooth/firmware/NimBLE-Arduino/src/nimble/ext/tinycrypt/src/ecc_dsa.c:268-282 | under key 2 that happens when the top bit of u1 stands one above a one of u2 that is a zero of u1, with no bit of u2 higher |
| Collision.GenuineRefused | backend/bluetooth/firmware/NimBLE-Arduino/src/nimble/ext/tinycrypt/src/ecc_dsa.c:99-294 | a concrete signature, made with key 2 and nonce 4, that has 0 < r < n and 0 < s < n and is refused |
| Collision.ZeroRefused | backend/bluetooth/firmware/NimBLE-Arduino/src/nimble/ext/tinycrypt/src/ecc_dsa.c:99-228 | a concrete signature made with the same key and nonce whose s is zero, and which is refused |
| Collision.BaseKeyRefused | backend/bluetooth/firmware/NimBLE-Arduino/src/nimble/ext/tinycrypt/src/ecc_dsa.c:243-282 | under Q = G the scalars 1 and 1 load the stored sum (0, 0): a signature with x(u1 G + u2 Q) = r and no addition at all is refused |
| Utils.Copy | backend/bluetooth/firmware/NimBLE-Arduino/src/nimble/ext/tinycrypt/src/utils.c:40-49 | the range is replaced by the source bytes; nothing is written when they do not fit |
| Utils.Fill | backend/bluetooth/firmware/NimBLE-Arduino/src/nimble/ext/tinycrypt/src/utils.c:51-54 | the range holds the value |
| Utils.Compare | backend/bluetooth/firmware/NimBLE-Arduino/src/nimble/ext/tinycrypt/src/utils.c:64-74 | zero exactly on equal ranges |
| Gf256.DoubleByteReduces | backend/bluetooth/firmware/NimBLE-Arduino/src/nimble/ext/tinycrypt/src/utils.c:56-62 | multiplication by X with reduction by X^8 + X^4 + X^3 + X + 1 |
| Ctr.CtrMode | backend/bluetooth/firmware/NimBLE-Arduino/src/nimble/ext/tinycrypt/src/ctr_mode.c:37-85 | the output is the input under the key stream of section 6.5 of NIST SP 800-38A, in place too, and the counter moves on by the blocks used |
| Ctr.CtrRestores | backend/bluetooth/firmware/NimBLE-Arduino/src/nimble/ext/tinycrypt/src/ctr_mode.c:37-85 | the same counter restores the data |
| Ctr.CtrStream | backend/bluetooth/firmware/NimBLE-Arduino/src/nimble/ext/tinycrypt/src/ctr_mode.c:37-85 | a stream cut at a block boundary gives the same output and the same final counter as one call |
| Ctr.CtrChunks | backend/bluetooth/firmware/NimBLE-Arduino/src/nimble/ext/tinycrypt/src/ctr_mode.c:37-85 | the same output and the same final counter for any number of calls that end on block boundaries, except perhaps the last |
| Ctr.NonceKept | backend/bluetooth/firmware/NimBLE-Arduino/src/nimble/ext/tinycrypt/src/ctr_mode.c:60-82 | the twelve bytes before the counter never change |
| Ctr.CounterWraps | backend/bluetooth/firmware/NimBLE-Arduino/src/nimble/ext/tinycrypt/src/ctr_mode.c:64-82 | two counter blocks of a stream are equal exactly when they are a multiple of 2^32 blocks apart |
| Ctr.Inc32ByBytes | backend/bluetooth/firmware/NimBLE-Arduino/src/nimble/ext/tinycrypt/src/ctr_mode.c:64-82 | the last byte counts the units, with the carry going to the byte before it up to the fourth from the end |
| Ctr.CtrByBlocks | backend/bluetooth/firmware/NimBLE-Arduino/src/nimble/ext/tinycrypt/src/ctr_mode.c:60-82 | the first block is encrypted with the counter block itself and the rest with the incremented one |
| CcmMode.CcmState.Config | backend/bluetooth/firmware/NimBLE-Arduino/src/nimble/ext/tinycrypt/src/ccm_mode.c:39-59 | accepted exactly for 13-byte nonces and tag lengths 4, 6, ..., 16; otherwise nothing changes |
| Ccm.CbcMac | backend/bluetooth/firmware/NimBLE-Arduino/src/nimble/ext/tinycrypt/src/ccm_mode.c:64-84 | the byte loop extends the CBC-MAC chain by the zero-padded blocks of the data, with its length in front when the flag is set (section 2.2 of RFC 3610) |
| Cbc.RunningBlock | backend/bluetooth/firmware/NimBLE-Arduino/src/nimble/ext/tinycrypt/src/ccm_mode.c:78-83 | the byte that completes a block, or the data, makes one application of the cipher to the padded block |
| Ccm.CtrMode | backend/bluetooth/firmware/NimBLE-Arduino/src/nimble/ext/tinycrypt/src/ccm_mode.c:93-135 | the key stream of a 16-bit counter that is increased before each use; in place too |
| Ccm.KeyStreamIsStream | backend/bluetooth/firmware/NimBLE-Arduino/src/nimble/ext/tinycrypt/src/ccm_mode.c:93-135 | from counter zero the key stream blocks are S_1, S_2, ... of section 2.3 of RFC 3610 |
| CcmMode.MacByParts | backend/bluetooth/firmware/NimBLE-Arduino/src/nimble/ext/tinycrypt/src/ccm_mode.c:158-175 | the tag is built from B_0, the encoded associated data and the payload one after another |
| CcmMode.CcmState.GenerationEncryption | backend/bluetooth/firmware/NimBLE-Arduino/src/nimble/ext/tinycrypt/src/ccm_mode.c:137-196 | succeeds exactly within the size limits and buffer; the output is the authenticated encryption of RFC 3610; in place too |
| CcmMode.CcmState.DecryptionVerification | backend/bluetooth/firmware/NimBLE-Arduino/src/nimble/ext/tinycrypt/src/ccm_mode.c:198-266 | succeeds exactly on a matching tag with the payload as output; on a wrong tag the whole output range is zero |
| Ccm.RoundTrip | backend/bluetooth/firmware/NimBLE-Arduino/src/nimble/ext/tinycrypt/src/ccm_mode.c:137-266 | decrypting what was encrypted gives the payload back if and only if payload and tag together are shorter than 65536 bytes |
| Ccm.LongestPayloadIsLost | backend/bluetooth/firmware/NimBLE-Arduino/src/nimble/ext/tinycrypt/src/ccm_mode.c:149-150 | a payload of 65535 bytes is encrypted but never decrypted |
| Ccm.OpenIffSealed | backend/bluetooth/firmware/NimBLE-Arduino/src/nimble/ext/tinycrypt/src/ccm_mode.c:198-266 | decryption accepts exactly the messages that encryption produces, and answers what was encrypted |
| Ccm.FlagFields | backend/bluetooth/firmware/NimBLE-Arduino/src/nimble/ext/tinycrypt/src/ccm_mode.c:161 | the flags of B_0 hold a reserved zero, the Adata bit, (M - 2) / 2 and L - 1 in the fields of section 2.2 of RFC 3610 |
| Ccm.SizeLimits | backend/bluetooth/firmware/NimBLE-Arduino/src/nimble/ext/tinycrypt/src/ccm_mode.c:144-150 | encryption takes associated data below 65280 and payloads below 65536 bytes, decryption no message of 65536 bytes or more |
| CcmVector.VectorMac | backend/bluetooth/firmware/NimBLE-Arduino/src/nimble/ext/tinycrypt/src/ccm_mode.c:158-175 | the tag of packet vector 1 of RFC 3610 chains over exactly the four blocks listed there, for every cipher |
| CcmVector.VectorSealed | backend/bluetooth/firmware/NimBLE-Arduino/src/nimble/ext/tinycrypt/src/ccm_mode.c:137-196 | the 31 bytes of that packet under the key stream blocks of the listed A_1 and A_2, the tag under A_0 |
| CmacMode.GfDouble | backend/bluetooth/firmware/NimBLE-Arduino/src/nimble/ext/tinycrypt/src/cmac_mode.c:78-95 | the byte-wise doubling with its carries |
| Cmac.DoubledIsTimesX | backend/bluetooth/firmware/NimBLE-Arduino/src/nimble/ext/tinycrypt/src/cmac_mode.c:78-95 | doubling is multiplication by X in GF(2^128) modulo X^128 + X^7 + X^2 + X + 1, coefficient by coefficient |
| Cmac.SubkeysAreMultiples | backend/bluetooth/firmware/NimBLE-Arduino/src/nimble/ext/tinycrypt/src/cmac_mode.c:111-115 | K1 is X times the cipher of the zero block and K2 is X times K1 |
| CmacMode.CmacState.Setup | backend/bluetooth/firmware/NimBLE-Arduino/src/nimble/ext/tinycrypt/src/cmac_mode.c:97-123 | the caller's words hold the key schedule, and the state is a fresh message under AES with it and its subkeys K1 and K2 |
| CmacMode.CmacState.Erase | backend/bluetooth/firmware/NimBLE-Arduino/src/nimble/ext/tinycrypt/src/cmac_mode.c:125-135 | everything is zero |
| CmacMode.CmacState.Init | backend/bluetooth/firmware/NimBLE-Arduino/src/nimble/ext/tinycrypt/src/cmac_mode.c:137-155 | a fresh message under the same key and a full countdown |
| CmacMode.CmacState.Update | backend/bluetooth/firmware/NimBLE-Arduino/src/nimble/ext/tinycrypt/src/cmac_mode.c:157-220 | the data is appended; refused only for nonempty data when the countdown is used up, and then nothing changes |
| CmacMode.CmacState.Final | backend/bluetooth/firmware/NimBLE-Arduino/src/nimble/ext/tinycrypt/src/cmac_mode.c:222-254 | the tag of all updates, and the state erased |
| CmacMode.FillUpdate | backend/bluetooth/firmware/NimBLE-Arduino/src/nimble/ext/tinycrypt/src/cmac_mode.c:188-201 | a block completed from inside is encrypted at once |
| CmacMode.EndUpdate | backend/bluetooth/firmware/NimBLE-Arduino/src/nimble/ext/tinycrypt/src/cmac_mode.c:203-217 | what is kept for the end: one to sixteen bytes, or none after a completed block |
| Cmac.StreamingExact | backend/bluetooth/firmware/NimBLE-Arduino/src/nimble/ext/tinycrypt/src/cmac_mode.c:157-254 | the streamed tag is the CMAC of section 2.4 of RFC 4493 under every block function, if and only if the last nonempty update does not fill exactly the block it began inside |
| Cmac.FilledDiffers | backend/bluetooth/firmware/NimBLE-Arduino/src/nimble/ext/tinycrypt/src/cmac_mode.c:188-201 | in the other case the tag differs already for the identity as cipher |
| Cmac.SixteenBytesInTwo | backend/bluetooth/firmware/NimBLE-Arduino/src/nimble/ext/tinycrypt/src/cmac_mode.c:188-201 | the shortest such case: a block given as one byte and then fifteen |
| Cmac.OneUpdate | backend/bluetooth/firmware/NimBLE-Arduino/src/nimble/ext/tinycrypt/src/cmac_mode.c:157-254 | a single update gives the CMAC, whatever its length |
| Cmac.MacByLength | backend/bluetooth/firmware/NimBLE-Arduino/src/nimble/ext/tinycrypt/src/cmac_mode.c:157-254 | the CMAC of 0, 16, 40 and 64 bytes, the lengths of the examples of RFC 4493, written out for every cipher |
| Sha256Constants.RoundConstantsAreCubeRoots | backend/bluetooth/firmware/NimBLE-Arduino/src/nimble/ext/tinycrypt/src/sha256.c:138-155 | each round constant is the first 32 bits of the fractional part of the cube root of its prime |
| Sha256Constants.InitialWordsAreSquareRoots | backend/bluetooth/firmware/NimBLE-Arduino/src/nimble/ext/tinycrypt/src/sha256.c:46-60 | each initial word is the first 32 bits of the fractional part of the square root of its prime |
| Compression.RollNext | backend/bluetooth/firmware/NimBLE-Arduino/src/nimble/ext/tinycrypt/src/sha256.c:202-208 | sixteen rolling words suffice: the next word of the full schedule replaces the oldest one |
| Compression.Compress | backend/bluetooth/firmware/NimBLE-Arduino/src/nimble/ext/tinycrypt/src/sha256.c:181-217 | the compression function of section 6.2.2 of FIPS 180-4, with its 64-word schedule |
| Sha256Bits.BigSigma0Bit | backend/bluetooth/firmware/NimBLE-Arduino/src/nimble/ext/tinycrypt/src/sha256.c:162 | each bit is the sum modulo 2 of the bits 2, 13 and 22 places up, cyclically |
| Sha256Bits.BigSigma1Bit | backend/bluetooth/firmware/NimBLE-Arduino/src/nimble/ext/tinycrypt/src/sha256.c:163 | each bit is the sum modulo 2 of the bits 6, 11 and 25 places up, cyclically |
| Sha256Bits.Sigma0Bit | backend/bluetooth/firmware/NimBLE-Arduino/src/nimble/ext/tinycrypt/src/sha256.c:164 | each bit is the sum modulo 2 of the bits 7 and 18 places up, cyclically, and of the bit 3 places up if there is one |
| Sha256Bits.Sigma1Bit | backend/bluetooth/firmware/NimBLE-Arduino/src/nimble/ext/tinycrypt/src/sha256.c:165 | each bit is the sum modulo 2 of the bits 17 and 19 places up, cyclically, and of the bit 10 places up if there is one |
| Sha256Bits.ChoiceBit | backend/bluetooth/firmware/NimBLE-Arduino/src/nimble/ext/tinycrypt/src/sha256.c:167 | each bit is chosen from the second or third word by the first |
| Sha256Bits.MajorityBit | backend/bluetooth/firmware/NimBLE-Arduino/src/nimble/ext/tinycrypt/src/sha256.c:168 | each bit is the majority of three |
| Sha256Vector.AbcDigest | backend/bluetooth/firmware/NimBLE-Arduino/src/nimble/ext/tinycrypt/src/sha256.c:39-217 | the digest of the bytes of "abc", all 32 bytes written out |
| Sha256.PaddedLength | backend/bluetooth/firmware/NimBLE-Arduino/src/nimble/ext/tinycrypt/src/sha256.c:97-121 | the padding takes one block, or two when fewer than eight bytes are left after the one bit |
| Sha256.LengthIsExact | backend/bluetooth/firmware/NimBLE-Arduino/src/nimble/ext/tinycrypt/src/sha256.c:108-118 | for messages below 2^61 bytes the last eight bytes are the exact length in bits |
| Sha256.FinalOne | backend/bluetooth/firmware/NimBLE-Arduino/src/nimble/ext/tinycrypt/src/sha256.c:97-121 | one last block completes the digest when the message leaves room |
| Sha256.FinalTwo | backend/bluetooth/firmware/NimBLE-Arduino/src/nimble/ext/tinycrypt/src/sha256.c:100-121 | two last blocks complete it otherwise |
| HashState.Sha256State.Init | backend/bluetooth/firmware/NimBLE-Arduino/src/nimble/ext/tinycrypt/src/sha256.c:39-63 | an empty message and the initial hash value |
| HashState.Sha256State.Update | backend/bluetooth/firmware/NimBLE-Arduino/src/nimble/ext/tinycrypt/src/sha256.c:65-85 | the bytes are appended to the message, however they are split over calls |
| HashState.Sha256State.Final | backend/bluetooth/firmware/NimBLE-Arduino/src/nimble/ext/tinycrypt/src/sha256.c:87-136 | the digest of pad-then-compress over the whole message, and the state erased |
| Hmac.Rekey | backend/bluetooth/firmware/NimBLE-Arduino/src/nimble/ext/tinycrypt/src/hmac.c:37-50 | the inner and outer pads of the key, although the new key may lie inside the array that is overwritten |
| Hmac.HmacState.SetKey | backend/bluetooth/firmware/NimBLE-Arduino/src/nimble/ext/tinycrypt/src/hmac.c:52-94 | refuses only the empty key; the pads of the key of section 2 of RFC 2104, hashed first when longer than a block; for shorter keys the hash state is untouched |
| Hmac.HmacState.Init | backend/bluetooth/firmware/NimBLE-Arduino/src/nimble/ext/tinycrypt/src/hmac.c:96-108 | a fresh message under the key |
| Hmac.HmacState.Update | backend/bluetooth/firmware/NimBLE-Arduino/src/nimble/ext/tinycrypt/src/hmac.c:110-123 | the data is appended |
| Hmac.HmacState.Final | backend/bluetooth/firmware/NimBLE-Arduino/src/nimble/ext/tinycrypt/src/hmac.c:125-148 | the HMAC of RFC 2104 over everything fed in, and the whole state erased; a wrong tag length changes nothing |
| Hmac.MacOfShortKey | backend/bluetooth/firmware/NimBLE-Arduino/src/nimble/ext/tinycrypt/src/hmac.c:37-148 | under the key "Jefe" the HMAC of any text is the outer digest over 16 39 3a 39 and 60 bytes 5c of the inner digest over 7c 53 50 53, 60 bytes 36 and the text |
| Hmac.MacOfOtherKeys | backend/bluetooth/firmware/NimBLE-Arduino/src/nimble/ext/tinycrypt/src/hmac.c:52-94 | a key longer than 64 bytes stands for its digest, and a shorter one for itself followed by a zero byte |
| Sbox.InvSubSub | backend/bluetooth/firmware/NimBLE-Arduino/src/nimble/ext/tinycrypt/src/aes_decrypt.c:37-60 | the inverse table undoes the table |
| Sbox.SubInvSub | backend/bluetooth/firmware/NimBLE-Arduino/src/nimble/ext/tinycrypt/src/aes_encrypt.c:37-60 | the table undoes the inverse table |
| Sbox.SubByteMeaning | backend/bluetooth/firmware/NimBLE-Arduino/src/nimble/ext/tinycrypt/src/aes_encrypt.c:37-60 | the S-box is the affine transformation of the inverse in GF(2^8) (section 5.1.1 of FIPS 197) |
| AesSteps.SubBytesInPlace | backend/bluetooth/firmware/NimBLE-Arduino/src/nimble/ext/tinycrypt/src/aes_encrypt.c:113-120 | the S-box on every byte |
| AesSteps.AddRoundKey | backend/bluetooth/firmware/NimBLE-Arduino/src/nimble/ext/tinycrypt/src/aes_encrypt.c:101-111 | the XOR with the four words of a round |
| AesSteps.ShiftRowsInPlace | backend/bluetooth/firmware/NimBLE-Arduino/src/nimble/ext/tinycrypt/src/aes_encrypt.c:147-156 | row r moves left by r columns |
| AesSteps.RowColumnMixes | backend/bluetooth/firmware/NimBLE-Arduino/src/nimble/ext/tinycrypt/src/aes_encrypt.c:122-130 | the four sums are the products with the polynomial of section 5.1.3 of FIPS 197 |
| AesSteps.MixColumnsInPlace | backend/bluetooth/firmware/NimBLE-Arduino/src/nimble/ext/tinycrypt/src/aes_encrypt.c:132-141 | every column is multiplied by that polynomial |
| AesSteps.InvRowColumnMixes | backend/bluetooth/firmware/NimBLE-Arduino/src/nimble/ext/tinycrypt/src/aes_decrypt.c:67-79 | the four sums are the products with the inverse polynomial |
| AesSteps.InvMixColumnsInPlace | backend/bluetooth/firmware/NimBLE-Arduino/src/nimble/ext/tinycrypt/src/aes_decrypt.c:81-90 | every column is multiplied by the inverse polynomial |
| AesSteps.InvShiftRowsInPlace | backend/bluetooth/firmware/NimBLE-Arduino/src/nimble/ext/tinycrypt/src/aes_decrypt.c:118-127 | row r moves right by r columns |
| AesSteps.InvSubBytesInPlace | backend/bluetooth/firmware/NimBLE-Arduino/src/nimble/ext/tinycrypt/src/aes_decrypt.c:104-111 | the inverse S-box on every byte |
| Aes.MixByteUndone | backend/bluetooth/firmware/NimBLE-Arduino/src/nimble/ext/tinycrypt/src/aes_decrypt.c:67-79 | the two column polynomials are inverse to each other |
| Aes.ColumnsUndone | backend/bluetooth/firmware/NimBLE-Arduino/src/nimble/ext/tinycrypt/src/aes_decrypt.c:81-90 | the column steps undo each other, both ways |
| Aes.RowsUndone | backend/bluetooth/firmware/NimBLE-Arduino/src/nimble/ext/tinycrypt/src/aes_decrypt.c:113-127 | the row steps undo each other, both ways |
| AesCipher.RconPowers | backend/bluetooth/firmware/NimBLE-Arduino/src/nimble/ext/tinycrypt/src/aes_encrypt.c:72-75 | the round constants are the powers of X in GF(2^8) |
| AesCipher.RoundConstants | backend/bluetooth/firmware/NimBLE-Arduino/src/nimble/ext/tinycrypt/src/aes_encrypt.c:72-75 | the constants are 01, 02, 04, 08, 10, 20, 40, 80, 1b, 36 in the first byte and zeros after it |
| AesCipher.SetEncryptKey | backend/bluetooth/firmware/NimBLE-Arduino/src/nimble/ext/tinycrypt/src/aes_encrypt.c:70-99 | the 44 words are the key expansion of section 5.2 of FIPS 197, byte by byte |
| AesCipher.RoundKeyBytes | backend/bluetooth/firmware/NimBLE-Arduino/src/nimble/ext/tinycrypt/src/aes_encrypt.c:101-111 | the round keys that the cipher adds are the words of that expansion |
| AesVector.ExampleRoundKeys | backend/bluetooth/firmware/NimBLE-Arduino/src/nimble/ext/tinycrypt/src/aes_encrypt.c:70-99 | the eleven round keys of the key of appendix A.1 of FIPS 197, written out |
| AesCipher.Encrypt | backend/bluetooth/firmware/NimBLE-Arduino/src/nimble/ext/tinycrypt/src/aes_encrypt.c:158-191 | the cipher of section 5.1 of FIPS 197; in place too |
| AesCipher.Decrypt | backend/bluetooth/firmware/NimBLE-Arduino/src/nimble/ext/tinycrypt/src/aes_decrypt.c:129-164 | the inverse cipher of section 5.3; in place too |
| AesVector.ExampleCipher | backend/bluetooth/firmware/NimBLE-Arduino/src/nimble/ext/tinycrypt/src/aes_encrypt.c:158-191 | the block of appendix B of FIPS 197 under that key gives the ciphertext listed there, and back |
| Aes.BackMeetsForward | backend/bluetooth/firmware/NimBLE-Arduino/src/nimble/ext/tinycrypt/src/aes_decrypt.c:144-151 | between rounds the inverse cipher is where the cipher was |
| Aes.DecryptEncrypt | backend/bluetooth/firmware/NimBLE-Arduino/src/nimble/ext/tinycrypt/src/aes_decrypt.c:129-164 | decryption undoes encryption for every key schedule and block |
| Aes.EncryptDecrypt | backend/bluetooth/firmware/NimBLE-Arduino/src/nimble/ext/tinycrypt/src/aes_encrypt.c:158-191 | encryption undoes decryption |
| Log.LogRing.Add | controller/log.c:86-92 | the entry joins the history; a full ring forgets its oldest entry and sends the reader back to the start |
| Log.LogRing.Cycle | controller/log.c:106-131 | the next entry of the window, skipping to the last max entries at the beginning of a round; nothing at its end |
| Log.LogRing.Drain | controller/log.c:106-131 | calling until nothing comes visits exactly the last max entries held, oldest first, and ends with log_next equal to log_start |
| Log.LastOfWindow | controller/log.c:106-131 | these are the last min(max, N - 1, number added) entries ever added |

## Left out

- The group law of the curve is not constructed: `CurveGroup.IsCurveGroup` assumes that chord and tangent make the points
  a commutative group of order n. `CurveGroup.ConstantsPrime` assumes that p and n are prime. Where a contract rests on
  these, it is stated as an implication from them.
- Verify.Verify: for a public key off the curve the contract only says that nothing out of range is accepted, and so it does
  for G and -G when u1 and u2 have a common one bit and different lengths: the loop then adds the stored (0, 0), which is no
  point of the curve. Key generation never yields G and -G (`Verify.KeyApart`). For a composite n, where u1 and u2 could
  both be zero and the code would read outside its arrays, the model returns; `ConstantsPrime` excludes the case.
- EccPoint.EccPointMult: the bit count is fixed to 257, the only value its callers pass on this curve. A point is a pair of
  eight-word arrays instead of one array of sixteen, and the constants of the curve are read from fresh copies.
- RandomInt.GenerateRandom: the top word of the bound is not zero, as for p and n; otherwise the shift of the mask is at
  least the width of a word. What a failing generator leaves in the buffer is not modelled.
- Ecdsa.Bits2Int: the shift and the final subtraction are left out, because for a 256-bit order the branch that contains
  them cannot be reached.
- Ecdsa.SignWithK: the signature buffer is taken to be different from the key and the digest.
- Vli.VliIsZero: the OR that collects the words is a boolean here, as it is in `VliEqual`; constant running time is not a
  property of the model.
- Mult.VliMult: bounded by 2^32 words, which is where the three-word accumulator could overflow.
- CcmMode.CcmState.DecryptionVerification: for messages shorter than the tag the size check wraps around; the contract
  excludes only the calls that claim an output buffer of almost 2^32 bytes, where the code would read past the message. The
  output may be the message, but not the associated data or the nonce, which are read again after it is written.
- CmacMode.CmacState.Setup: the state keeps the block function of the schedule it was given, where the code keeps a pointer
  to the schedule; a caller that changes the schedule afterwards is not modelled, nor is the unused field `keyid`.
- AesSteps.MixColumnsInPlace: the temporary buffers of the row and column steps are values; they are copied into the state
  as in the code.
- Log.LogRing.Add: entries that the level filter drops, that are printed instead of stored, or for which there is no
  memory do not reach the ring. Formatting, time stamps and the reuse of text buffers are left out.
- Null-pointer checks, memory erasure by assembly, and every claim about timing or randomness.
- `uECC_make_key`, `uECC_make_key_with_d` and `uECC_sign`: loops around the modelled functions with random input.
- `hmac_prng.c`: its generate and update steps use a keyed state that has been erased, so it does not follow the standard it names.
- `cbc_mode.c`: its output length check and its loop bound differ by one block.
- `ctr_prng.c`, `ecc_platform_specific.c`: a linear sequence of block encryptions, and operating-system randomness.
- The window system, sockets, serial port, option parsing and rendering of the controller, and the NimBLE wrappers.
