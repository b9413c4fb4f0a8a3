/** AES-128 on blocks: the steps, the cipher and its inverse, after FIPS 197. Byte r + 4c is row r of column c. */
module Aes {
  import opened Blocks
  import opened Gf256
  import opened Sbox

  // ---- The steps: sections 5.1 and 5.3 ----

  function SubBytes(s: Block): Block {
    seq(16, i requires 0 <= i < 16 => SubByte(s[i]))
  }

  function InvSubBytes(s: Block): Block {
    seq(16, i requires 0 <= i < 16 => InvSubByte(s[i]))
  }

  /** The place in the same row r, r columns to the right; and to the left. */
  function RightOf(i: nat): (j: nat)
    requires i < 16
    ensures j < 16
  {
    i % 4 + 4 * ((i / 4 + i % 4) % 4)
  }

  function LeftOf(i: nat): (j: nat)
    requires i < 16
    ensures j < 16
  {
    i % 4 + 4 * ((i / 4 - i % 4) % 4)
  }

  /** Row r moves left by r columns. */
  function ShiftRows(s: Block): Block {
    seq(16, i requires 0 <= i < 16 => s[RightOf(i)])
  }

  /** Row r moves right by r columns. */
  function InvShiftRows(s: Block): Block {
    seq(16, i requires 0 <= i < 16 => s[LeftOf(i)])
  }

  /** One byte of a column times {03}X^3 + {01}X^2 + {01}X + {02}; a is the byte in the same row, then downwards. */
  function MixByte(a: bv8, b: bv8, c: bv8, d: bv8): bv8 {
    Sum4(GfMul(a, 0x02), GfMul(b, 0x03), c, d)
  }

  /** The same for the inverse polynomial {0b}X^3 + {0d}X^2 + {09}X + {0e}. */
  function InvMixByte(a: bv8, b: bv8, c: bv8, d: bv8): bv8 {
    Sum4(GfMul(a, 0x0e), GfMul(b, 0x0b), GfMul(c, 0x0d), GfMul(d, 0x09))
  }

  /** The place k rows below place i in the same column, cyclically. */
  function Below(i: nat, k: nat): (j: nat)
    requires i < 16
    ensures j < 16
  {
    4 * (i / 4) + (i % 4 + k) % 4
  }

  function MixColumns(s: Block): Block {
    seq(16, i requires 0 <= i < 16 => MixByte(s[i], s[Below(i, 1)], s[Below(i, 2)], s[Below(i, 3)]))
  }

  function InvMixColumns(s: Block): Block {
    seq(16, i requires 0 <= i < 16 => InvMixByte(s[i], s[Below(i, 1)], s[Below(i, 2)], s[Below(i, 3)]))
  }

  /** Byte r of a word, the most significant one first. */
  function WordByte(w: bv32, r: nat): bv8
    requires r < 4
  {
    if r == 0 then Byte0(w) else if r == 1 then Byte1(w) else if r == 2 then Byte2(w) else Byte3(w)
  }

  function Byte0(w: bv32): bv8 {
    ((w >> 24) & 0xFF) as bv8
  }

  function Byte1(w: bv32): bv8 {
    ((w >> 16) & 0xFF) as bv8
  }

  function Byte2(w: bv32): bv8 {
    ((w >> 8) & 0xFF) as bv8
  }

  function Byte3(w: bv32): bv8 {
    (w & 0xFF) as bv8
  }

  type KeySchedule = w: seq<bv32> | |w| == 44 witness seq(44, _ => 0)

  /** The four words of round n, as a block. */
  function RoundKey(w: KeySchedule, n: nat): Block
    requires n <= 10
  {
    seq(16, i requires 0 <= i < 16 => WordByte(w[4 * n + i / 4], i % 4))
  }

  // ---- The cipher and its inverse ----

  function Round(s: Block, k: Block): Block {
    XorBlock(MixColumns(ShiftRows(SubBytes(s))), k)
  }

  function InvRound(s: Block, k: Block): Block {
    InvMixColumns(XorBlock(InvSubBytes(InvShiftRows(s)), k))
  }

  /** The state after the first key addition and n rounds. */
  function Forward(s: Block, w: KeySchedule, n: nat): Block
    requires n <= 9
  {
    if n == 0 then XorBlock(s, RoundKey(w, 0)) else Round(Forward(s, w, n - 1), RoundKey(w, n))
  }

  function Cipher(s: Block, w: KeySchedule): Block {
    XorBlock(ShiftRows(SubBytes(Forward(s, w, 9))), RoundKey(w, 10))
  }

  /** The state of the inverse cipher with n rounds still to go. */
  function Backward(s: Block, w: KeySchedule, n: nat): Block
    requires n <= 9
    decreases 9 - n
  {
    if n == 9 then XorBlock(s, RoundKey(w, 10)) else InvRound(Backward(s, w, n + 1), RoundKey(w, n + 1))
  }

  function InvCipher(s: Block, w: KeySchedule): Block {
    XorBlock(InvSubBytes(InvShiftRows(Backward(s, w, 0))), RoundKey(w, 0))
  }

  // ---- Every step has an inverse ----

  lemma BytesUndone(s: Block)
    ensures InvSubBytes(SubBytes(s)) == s && SubBytes(InvSubBytes(s)) == s
  {
    hide SubByte, InvSubByte;
    forall i | 0 <= i < 16
      ensures InvSubBytes(SubBytes(s))[i] == s[i] && SubBytes(InvSubBytes(s))[i] == s[i]
    {
      InvSubSub(s[i]);
      SubInvSub(s[i]);
    }
  }

  lemma RowsUndone(s: Block)
    ensures InvShiftRows(ShiftRows(s)) == s && ShiftRows(InvShiftRows(s)) == s
  {
    hide RightOf, LeftOf;
    forall i | 0 <= i < 16
      ensures InvShiftRows(ShiftRows(s))[i] == s[i] && ShiftRows(InvShiftRows(s))[i] == s[i]
    {
      Places(i);
    }
  }

  lemma Places(i: nat)
    requires i < 16
    ensures RightOf(LeftOf(i)) == i && LeftOf(RightOf(i)) == i
  {
    hide RightOf, LeftOf;
    var c, r := i / 4, i % 4;
    PlaceAt(c, r);
    PlaceAt((c - r) % 4, r);
    PlaceAt((c + r) % 4, r);
    Columns(c, r);
  }

  lemma PlaceAt(c: nat, r: nat)
    requires c < 4 && r < 4
    ensures RightOf(r + 4 * c) == r + 4 * ((c + r) % 4) && LeftOf(r + 4 * c) == r + 4 * ((c - r) % 4)
  {
    RowAndColumn(c, r);
  }

  lemma RowAndColumn(c: nat, r: nat)
    requires c < 4 && r < 4
    ensures (r + 4 * c) % 4 == r && (r + 4 * c) / 4 == c
  {
  }

  lemma Columns(c: nat, r: nat)
    requires c < 4 && r < 4
    ensures ((c - r) % 4 + r) % 4 == c && ((c + r) % 4 - r) % 4 == c
  {
  }

  /** What a byte contributes to its own row, and to the other three, in InvMix after Mix. */
  lemma MixSelf(x: bv8)
    ensures Sum4(GfMul(GfMul(x, 0x02), 0x0e), GfMul(x, 0x0b), GfMul(x, 0x0d), GfMul(GfMul(x, 0x03), 0x09)) == x
  {
  }

  lemma MixFirst(x: bv8)
    ensures Sum4(GfMul(GfMul(x, 0x03), 0x0e), GfMul(GfMul(x, 0x02), 0x0b), GfMul(x, 0x0d), GfMul(x, 0x09)) == 0
  {
  }

  lemma MixSecond(x: bv8)
    ensures Sum4(GfMul(x, 0x0e), GfMul(GfMul(x, 0x03), 0x0b), GfMul(GfMul(x, 0x02), 0x0d), GfMul(x, 0x09)) == 0
  {
  }

  lemma MixThird(x: bv8)
    ensures Sum4(GfMul(x, 0x0e), GfMul(x, 0x0b), GfMul(GfMul(x, 0x03), 0x0d), GfMul(GfMul(x, 0x02), 0x09)) == 0
  {
  }

  lemma OnlyFirst(a: bv8)
    ensures Sum4(a, 0, 0, 0) == a
  {
  }

  /** The two polynomials are inverse to each other modulo X^4 + 1. */
  lemma MixByteUndone(a: bv8, b: bv8, c: bv8, d: bv8)
    ensures InvMixByte(MixByte(a, b, c, d), MixByte(b, c, d, a), MixByte(c, d, a, b), MixByte(d, a, b, c)) == a
  {
    hide GfMul, Sum4;
    GfMulLinear4(GfMul(a, 0x02), GfMul(b, 0x03), c, d, 0x0e);
    GfMulLinear4(GfMul(b, 0x02), GfMul(c, 0x03), d, a, 0x0b);
    GfMulLinear4(GfMul(c, 0x02), GfMul(d, 0x03), a, b, 0x0d);
    GfMulLinear4(GfMul(d, 0x02), GfMul(a, 0x03), b, c, 0x09);
    Transpose(GfMul(GfMul(a, 0x02), 0x0e), GfMul(a, 0x0b), GfMul(a, 0x0d), GfMul(GfMul(a, 0x03), 0x09),
              GfMul(GfMul(b, 0x03), 0x0e), GfMul(GfMul(b, 0x02), 0x0b), GfMul(b, 0x0d), GfMul(b, 0x09),
              GfMul(c, 0x0e), GfMul(GfMul(c, 0x03), 0x0b), GfMul(GfMul(c, 0x02), 0x0d), GfMul(c, 0x09),
              GfMul(d, 0x0e), GfMul(d, 0x0b), GfMul(GfMul(d, 0x03), 0x0d), GfMul(GfMul(d, 0x02), 0x09));
    MixSelf(a);
    MixFirst(b);
    MixSecond(c);
    MixThird(d);
    OnlyFirst(a);
  }

  lemma InvMixSelf(x: bv8)
    ensures Sum4(GfMul(GfMul(x, 0x0e), 0x02), GfMul(GfMul(x, 0x09), 0x03), GfMul(x, 0x0d), GfMul(x, 0x0b)) == x
  {
  }

  lemma InvMixFirst(x: bv8)
    ensures Sum4(GfMul(GfMul(x, 0x0b), 0x02), GfMul(GfMul(x, 0x0e), 0x03), GfMul(x, 0x09), GfMul(x, 0x0d)) == 0
  {
  }

  lemma InvMixSecond(x: bv8)
    ensures Sum4(GfMul(GfMul(x, 0x0d), 0x02), GfMul(GfMul(x, 0x0b), 0x03), GfMul(x, 0x0e), GfMul(x, 0x09)) == 0
  {
  }

  lemma InvMixThird(x: bv8)
    ensures Sum4(GfMul(GfMul(x, 0x09), 0x02), GfMul(GfMul(x, 0x0d), 0x03), GfMul(x, 0x0b), GfMul(x, 0x0e)) == 0
  {
  }

  lemma InvMixByteUndone(a: bv8, b: bv8, c: bv8, d: bv8)
    ensures MixByte(InvMixByte(a, b, c, d), InvMixByte(b, c, d, a), InvMixByte(c, d, a, b), InvMixByte(d, a, b, c)) == a
  {
    hide GfMul, Sum4;
    GfMulLinear4(GfMul(a, 0x0e), GfMul(b, 0x0b), GfMul(c, 0x0d), GfMul(d, 0x09), 0x02);
    GfMulLinear4(GfMul(b, 0x0e), GfMul(c, 0x0b), GfMul(d, 0x0d), GfMul(a, 0x09), 0x03);
    Transpose(GfMul(GfMul(a, 0x0e), 0x02), GfMul(GfMul(a, 0x09), 0x03), GfMul(a, 0x0d), GfMul(a, 0x0b),
              GfMul(GfMul(b, 0x0b), 0x02), GfMul(GfMul(b, 0x0e), 0x03), GfMul(b, 0x09), GfMul(b, 0x0d),
              GfMul(GfMul(c, 0x0d), 0x02), GfMul(GfMul(c, 0x0b), 0x03), GfMul(c, 0x0e), GfMul(c, 0x09),
              GfMul(GfMul(d, 0x09), 0x02), GfMul(GfMul(d, 0x0d), 0x03), GfMul(d, 0x0b), GfMul(d, 0x0e));
    InvMixSelf(a);
    InvMixFirst(b);
    InvMixSecond(c);
    InvMixThird(d);
    OnlyFirst(a);
  }

  /** Going down the column: k rows and then l rows. */
  lemma BelowTwice(i: nat, k: nat, l: nat)
    requires i < 16 && k < 4 && l < 4
    ensures Below(Below(i, k), l) == Below(i, (k + l) % 4) && Below(i, 0) == i
  {
    hide Below;
    var c, r := i / 4, i % 4;
    BelowAt(c, r, k);
    BelowAt(c, r, 0);
    BelowAt(c, r, (k + l) % 4);
    BelowAt(c, (r + k) % 4, l);
    TurnTwice(r, k, l);
  }

  lemma BelowAt(c: nat, r: nat, k: nat)
    requires c < 4 && r < 4
    ensures Below(4 * c + r, k) == 4 * c + (r + k) % 4
  {
    RowAndColumn(c, r);
  }

  lemma TurnTwice(r: nat, k: nat, l: nat)
    requires r < 4 && k < 4 && l < 4
    ensures ((r + k) % 4 + l) % 4 == (r + (k + l) % 4) % 4
  {
  }

  lemma MixAt(s: Block, i: nat)
    requires i < 16
    ensures MixColumns(s)[i] == MixByte(s[i], s[Below(i, 1)], s[Below(i, 2)], s[Below(i, 3)])
    ensures InvMixColumns(s)[i] == InvMixByte(s[i], s[Below(i, 1)], s[Below(i, 2)], s[Below(i, 3)])
  {
  }

  /** The whole column around place i, whichever row it is in. */
  lemma MixAround(s: Block, i: nat)
    requires i < 16
    ensures var a, b, c, d := s[i], s[Below(i, 1)], s[Below(i, 2)], s[Below(i, 3)];
            && MixColumns(s)[i] == MixByte(a, b, c, d) && MixColumns(s)[Below(i, 1)] == MixByte(b, c, d, a)
            && MixColumns(s)[Below(i, 2)] == MixByte(c, d, a, b) && MixColumns(s)[Below(i, 3)] == MixByte(d, a, b, c)
            && InvMixColumns(s)[i] == InvMixByte(a, b, c, d) && InvMixColumns(s)[Below(i, 1)] == InvMixByte(b, c, d, a)
            && InvMixColumns(s)[Below(i, 2)] == InvMixByte(c, d, a, b)
            && InvMixColumns(s)[Below(i, 3)] == InvMixByte(d, a, b, c)
  {
    hide MixColumns, InvMixColumns, MixByte, InvMixByte, Below;
    MixAt(s, i);
    MixAt(s, Below(i, 1));
    MixAt(s, Below(i, 2));
    MixAt(s, Below(i, 3));
    BelowTwice(i, 1, 1);
    BelowTwice(i, 1, 2);
    BelowTwice(i, 1, 3);
    BelowTwice(i, 2, 1);
    BelowTwice(i, 2, 2);
    BelowTwice(i, 2, 3);
    BelowTwice(i, 3, 1);
    BelowTwice(i, 3, 2);
    BelowTwice(i, 3, 3);
  }

  lemma ColumnsUndone(s: Block)
    ensures InvMixColumns(MixColumns(s)) == s && MixColumns(InvMixColumns(s)) == s
  {
    hide MixColumns, InvMixColumns, MixByte, InvMixByte, Below;
    forall i | 0 <= i < 16
      ensures InvMixColumns(MixColumns(s))[i] == s[i] && MixColumns(InvMixColumns(s))[i] == s[i]
    {
      MixAround(s, i);
      MixAround(MixColumns(s), i);
      MixAround(InvMixColumns(s), i);
      var a, b, c, d := s[i], s[Below(i, 1)], s[Below(i, 2)], s[Below(i, 3)];
      MixByteUndone(a, b, c, d);
      InvMixByteUndone(a, b, c, d);
    }
  }

  lemma KeyUndone(s: Block, k: Block)
    ensures XorBlock(XorBlock(s, k), k) == s
  {
    forall i | 0 <= i < 16
      ensures XorBlock(XorBlock(s, k), k)[i] == s[i]
    {
      XorTwice(s[i], k[i]);
    }
  }

  // ---- The inverse cipher is the inverse ----

  lemma RoundUndone(s: Block, k: Block)
    ensures InvMixColumns(XorBlock(Round(s, k), k)) == ShiftRows(SubBytes(s))
  {
    hide MixColumns, InvMixColumns, ShiftRows, SubBytes, XorBlock;
    KeyUndone(MixColumns(ShiftRows(SubBytes(s))), k);
    ColumnsUndone(ShiftRows(SubBytes(s)));
  }

  /** Undoing the substitution and the shift, in the order of the inverse cipher. */
  lemma ShiftSubUndone(s: Block)
    ensures InvSubBytes(InvShiftRows(ShiftRows(SubBytes(s)))) == s
    ensures ShiftRows(SubBytes(InvSubBytes(InvShiftRows(s)))) == s
  {
    hide InvShiftRows, ShiftRows, SubBytes, InvSubBytes;
    RowsUndone(SubBytes(s));
    BytesUndone(s);
    BytesUndone(InvShiftRows(s));
    RowsUndone(s);
  }

  /** Between rounds the inverse cipher is at what the cipher had after substitution and shift in the round it undoes
      next. */
  lemma {:induction false} BackMeetsForward(s: Block, w: KeySchedule, n: nat)
    requires n <= 9
    ensures Backward(Cipher(s, w), w, n) == ShiftRows(SubBytes(Forward(s, w, n)))
    decreases 9 - n
  {
    hide MixColumns, InvMixColumns, ShiftRows, InvShiftRows, SubBytes, InvSubBytes, XorBlock, RoundKey;
    if n == 9 {
      KeyUndone(ShiftRows(SubBytes(Forward(s, w, 9))), RoundKey(w, 10));
    } else {
      BackMeetsForward(s, w, n + 1);
      ShiftSubUndone(Forward(s, w, n + 1));
      RoundUndone(Forward(s, w, n), RoundKey(w, n + 1));
    }
  }

  /** Decryption undoes encryption, under every key schedule. */
  lemma DecryptEncrypt(s: Block, w: KeySchedule)
    ensures InvCipher(Cipher(s, w), w) == s
  {
    hide MixColumns, InvMixColumns, ShiftRows, InvShiftRows, SubBytes, InvSubBytes, XorBlock, RoundKey, Cipher;
    BackMeetsForward(s, w, 0);
    ShiftSubUndone(Forward(s, w, 0));
    KeyUndone(s, RoundKey(w, 0));
  }

  lemma {:induction false} ForwardMeetsBack(s: Block, w: KeySchedule, n: nat)
    requires n <= 9
    ensures ShiftRows(SubBytes(Forward(InvCipher(s, w), w, n))) == Backward(s, w, n)
  {
    hide MixColumns, InvMixColumns, ShiftRows, InvShiftRows, SubBytes, InvSubBytes, XorBlock, RoundKey;
    if n == 0 {
      KeyUndone(InvSubBytes(InvShiftRows(Backward(s, w, 0))), RoundKey(w, 0));
      ShiftSubUndone(Backward(s, w, 0));
    } else {
      ForwardMeetsBack(s, w, n - 1);
      var x := InvSubBytes(InvShiftRows(Backward(s, w, n)));
      ColumnsUndone(XorBlock(x, RoundKey(w, n)));
      KeyUndone(x, RoundKey(w, n));
      ShiftSubUndone(Backward(s, w, n));
    }
  }

  /** Encryption undoes decryption. */
  lemma EncryptDecrypt(s: Block, w: KeySchedule)
    ensures Cipher(InvCipher(s, w), w) == s
  {
    hide MixColumns, InvMixColumns, ShiftRows, InvShiftRows, SubBytes, InvSubBytes, XorBlock, RoundKey, InvCipher;
    ForwardMeetsBack(s, w, 9);
    KeyUndone(s, RoundKey(w, 10));
  }
}
