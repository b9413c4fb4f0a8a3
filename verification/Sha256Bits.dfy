/** The six logical functions of SHA-256 bit by bit: section 4.1.2 of FIPS 180-4. */
module Sha256Bits {
  import opened Compression

  /** Bit i of a, counted from the least significant, as a word. Places are added modulo 32. */
  function BitOf(a: bv32, i: bv5): bv32 {
    (a >> i) & 1
  }

  lemma RotrRaw(a: bv32, n: bv6, k: bv5, i: bv5)
    requires 0 < n < 32 && k as bv6 == n
    ensures (((a >> n) | (a << (32 - n))) >> i) & 1 == (a >> (i + k)) & 1
  {
  }

  lemma RotrBit(a: bv32, n: bv6, k: bv5, i: bv5)
    requires 0 < n < 32 && k as bv6 == n
    ensures BitOf(Rotr(a, n), i) == BitOf(a, i + k)
  {
    calc {
      BitOf(Rotr(a, n), i);
      (((a >> n) | (a << (32 - n))) >> i) & 1;
      { RotrRaw(a, n, k, i); }
      (a >> (i + k)) & 1;
      BitOf(a, i + k);
    }
  }

  lemma ShrRaw(a: bv32, n: bv6, k: bv5, i: bv5)
    requires n < 32 && k as bv6 == n
    ensures ((a >> n) >> i) & 1 == if i as bv6 < 32 - n then (a >> (i + k)) & 1 else 0
  {
  }

  lemma ShrBit(a: bv32, n: bv6, k: bv5, i: bv5)
    requires n < 32 && k as bv6 == n
    ensures BitOf(Shr(a, n), i) == if i as bv6 < 32 - n then BitOf(a, i + k) else 0
  {
    calc {
      BitOf(Shr(a, n), i);
      ((a >> n) >> i) & 1;
      { ShrRaw(a, n, k, i); }
      if i as bv6 < 32 - n then (a >> (i + k)) & 1 else 0;
      if i as bv6 < 32 - n then BitOf(a, i + k) else 0;
    }
  }

  lemma XorRaw(a: bv32, b: bv32, c: bv32, i: bv5)
    ensures ((a ^ b ^ c) >> i) & 1 == ((a >> i) & 1) ^ ((b >> i) & 1) ^ ((c >> i) & 1)
  {
  }

  lemma XorBit(a: bv32, b: bv32, c: bv32, i: bv5)
    ensures BitOf(Xor3(a, b, c), i) == Xor3(BitOf(a, i), BitOf(b, i), BitOf(c, i))
  {
    calc {
      BitOf(Xor3(a, b, c), i);
      BitOf(a ^ b ^ c, i);
      ((a ^ b ^ c) >> i) & 1;
      { XorRaw(a, b, c, i); }
      ((a >> i) & 1) ^ ((b >> i) & 1) ^ ((c >> i) & 1);
      BitOf(a, i) ^ BitOf(b, i) ^ BitOf(c, i);
      Xor3(BitOf(a, i), BitOf(b, i), BitOf(c, i));
    }
  }

  function And(a: bv32, b: bv32): bv32 {
    a & b
  }

  function Not(a: bv32): bv32 {
    !a
  }

  lemma AndBit(a: bv32, b: bv32, i: bv5)
    ensures BitOf(And(a, b), i) == And(BitOf(a, i), BitOf(b, i))
  {
  }

  function Flip(x: bv32): bv32 {
    1 - x
  }

  lemma NotBit(a: bv32, i: bv5)
    ensures BitOf(Not(a), i) == Flip(BitOf(a, i))
  {
  }

  lemma ZeroBit(i: bv5)
    ensures BitOf(0, i) == 0
  {
  }

  lemma OneBit(a: bv32, i: bv5)
    ensures BitOf(a, i) == 0 || BitOf(a, i) == 1
  {
  }

  lemma BigSigma0Bit(a: bv32, i: bv5)
    ensures BitOf(BigSigma0(a), i) == Xor3(BitOf(a, i + 2), BitOf(a, i + 13), BitOf(a, i + 22))
  {
    hide Rotr, Shr, BitOf, Xor3;
    XorBit(Rotr(a, 2), Rotr(a, 13), Rotr(a, 22), i);
    RotrBit(a, 2, 2, i);
    RotrBit(a, 13, 13, i);
    RotrBit(a, 22, 22, i);
  }

  lemma BigSigma1Bit(a: bv32, i: bv5)
    ensures BitOf(BigSigma1(a), i) == Xor3(BitOf(a, i + 6), BitOf(a, i + 11), BitOf(a, i + 25))
  {
    hide Rotr, Shr, BitOf, Xor3;
    XorBit(Rotr(a, 6), Rotr(a, 11), Rotr(a, 25), i);
    RotrBit(a, 6, 6, i);
    RotrBit(a, 11, 11, i);
    RotrBit(a, 25, 25, i);
  }

  /** Two rotations and a shift, which brings in zeros. */
  lemma Sigma0Bit(a: bv32, i: bv5)
    ensures BitOf(Sigma0(a), i) == Xor3(BitOf(a, i + 7), BitOf(a, i + 18), if i < 29 then BitOf(a, i + 3) else 0)
  {
    hide Rotr, Shr, BitOf, Xor3;
    XorBit(Rotr(a, 7), Rotr(a, 18), Shr(a, 3), i);
    RotrBit(a, 7, 7, i);
    RotrBit(a, 18, 18, i);
    ShrBit(a, 3, 3, i);
  }

  lemma Sigma1Bit(a: bv32, i: bv5)
    ensures BitOf(Sigma1(a), i) == Xor3(BitOf(a, i + 17), BitOf(a, i + 19), if i < 22 then BitOf(a, i + 10) else 0)
  {
    hide Rotr, Shr, BitOf, Xor3;
    XorBit(Rotr(a, 17), Rotr(a, 19), Shr(a, 10), i);
    RotrBit(a, 17, 17, i);
    RotrBit(a, 19, 19, i);
    ShrBit(a, 10, 10, i);
  }

  /** Ch chooses between b and c by a. */
  lemma ChoiceBit(a: bv32, b: bv32, c: bv32, i: bv5)
    ensures BitOf(Ch(a, b, c), i) == if BitOf(a, i) == 1 then BitOf(b, i) else BitOf(c, i)
  {
    hide BitOf, Xor3, And, Not, Flip, Ch;
    ChIs(a, b, c);
    XorBit(And(a, b), And(Not(a), c), 0, i);
    AndBit(a, b, i);
    AndBit(Not(a), c, i);
    NotBit(a, i);
    ZeroBit(i);
    OneBit(a, i);
    OneBit(b, i);
    OneBit(c, i);
    ChoiceOfBits(BitOf(a, i), BitOf(b, i), BitOf(c, i));
  }

  lemma ChIs(a: bv32, b: bv32, c: bv32)
    ensures Ch(a, b, c) == Xor3(And(a, b), And(Not(a), c), 0)
  {
  }

  lemma ChoiceOfBits(x: bv32, y: bv32, z: bv32)
    requires (x == 0 || x == 1) && (y == 0 || y == 1) && (z == 0 || z == 1)
    ensures Xor3(And(x, y), And(Flip(x), z), 0) == if x == 1 then y else z
  {
  }

  /** Maj is the majority. */
  lemma MajorityBit(a: bv32, b: bv32, c: bv32, i: bv5)
    ensures BitOf(Maj(a, b, c), i) == if BitOf(a, i) == BitOf(b, i) then BitOf(a, i) else BitOf(c, i)
  {
    hide BitOf, Xor3, And, Maj;
    MajIs(a, b, c);
    XorBit(And(a, b), And(a, c), And(b, c), i);
    AndBit(a, b, i);
    AndBit(a, c, i);
    AndBit(b, c, i);
    OneBit(a, i);
    OneBit(b, i);
    OneBit(c, i);
    MajorityOfBits(BitOf(a, i), BitOf(b, i), BitOf(c, i));
  }

  lemma MajIs(a: bv32, b: bv32, c: bv32)
    ensures Maj(a, b, c) == Xor3(And(a, b), And(a, c), And(b, c))
  {
  }

  lemma MajorityOfBits(x: bv32, y: bv32, z: bv32)
    requires (x == 0 || x == 1) && (y == 0 || y == 1) && (z == 0 || z == 1)
    ensures Xor3(And(x, y), And(x, z), And(y, z)) == if x == y then x else z
  {
  }
}
