/** AES-128: the key schedule, encryption and decryption. */
module AesCipher {
  import opened Blocks
  import opened Gf256
  import opened Sbox
  import opened Aes
  import opened AesSteps
  import opened Word32

  // ---- The key schedule, in bytes: section 5.2 of FIPS 197 ----

  /** X^n in GF(2^8). */
  function PowerOfX(n: nat): bv8 {
    if n == 0 then 1 else DoubleByte(PowerOfX(n - 1))
  }

  /** Byte r of the round constant: X^(j - 1), then zeros. */
  function Rcon(j: nat, r: nat): bv8
    requires j > 0
  {
    if r == 0 then PowerOfX(j - 1) else 0
  }

  /** 01, 02, 04 and so on: each constant is X times the one before. */
  lemma RoundConstants()
    ensures Rcon(1, 0) == 0x01 && Rcon(2, 0) == 0x02 && Rcon(3, 0) == 0x04 && Rcon(4, 0) == 0x08
    ensures Rcon(5, 0) == 0x10 && Rcon(6, 0) == 0x20 && Rcon(7, 0) == 0x40 && Rcon(8, 0) == 0x80
    ensures Rcon(9, 0) == 0x1b && Rcon(10, 0) == 0x36
    ensures forall j: nat :: j > 0 ==> Rcon(j + 1, 0) == DoubleByte(Rcon(j, 0))
    ensures forall j: nat, r: nat :: j > 0 && r > 0 ==> Rcon(j, r) == 0
  {
    assert PowerOfX(1) == 0x02 && PowerOfX(2) == 0x04 && PowerOfX(3) == 0x08;
    assert PowerOfX(4) == 0x10 && PowerOfX(5) == 0x20 && PowerOfX(6) == 0x40;
    assert PowerOfX(7) == 0x80 && PowerOfX(8) == 0x1b && PowerOfX(9) == 0x36;
  }

  /** Byte r of word i of the schedule. */
  function KeyByte(key: Block, i: nat, r: nat): bv8
    requires r < 4
    decreases i
  {
    if i < 4 then key[4 * i + r]
    else if i % 4 == 0 then
      GfAdd(KeyByte(key, i - 4, r), GfAdd(SubByte(KeyByte(key, i - 1, (r + 1) % 4)), Rcon(i / 4, r)))
    else GfAdd(KeyByte(key, i - 4, r), KeyByte(key, i - 1, r))
  }

  // ---- The code's words ----

  function RotWord(a: bv32): bv32 {
    (a >> 24) | (a << 8)
  }

  /** subword: the S-box on each byte of a word. */
  function SubWord(a: bv32): bv32 {
    BigEndian(SubByte(Byte0(a)), SubByte(Byte1(a)), SubByte(Byte2(a)), SubByte(Byte3(a)))
  }

  lemma RotatedBytes(a: bv32, r: nat)
    requires r < 4
    ensures WordByte(RotWord(a), r) == WordByte(a, (r + 1) % 4)
  {
    hide Byte0, Byte1, Byte2, Byte3, RotWord;
    Rotated(a);
  }

  lemma Rotated(a: bv32)
    ensures Byte0(RotWord(a)) == Byte1(a) && Byte1(RotWord(a)) == Byte2(a) && Byte2(RotWord(a)) == Byte3(a)
            && Byte3(RotWord(a)) == Byte0(a)
  {
  }

  lemma SubstitutedBytes(a: bv32, r: nat)
    requires r < 4
    ensures WordByte(SubWord(a), r) == SubByte(WordByte(a, r))
  {
    hide Byte0, Byte1, Byte2, Byte3, SubByte, BigEndian;
    JoinedBytes(SubByte(Byte0(a)), SubByte(Byte1(a)), SubByte(Byte2(a)), SubByte(Byte3(a)));
  }

  function RconTable(): (t: seq<bv32>)
    ensures |t| == 11
  {
    [0x00000000, 0x01000000, 0x02000000, 0x04000000, 0x08000000, 0x10000000, 0x20000000, 0x40000000, 0x80000000,
     0x1b000000, 0x36000000]
  }

  /** The round constants of the code are the powers of X. */
  lemma RconPowers(j: nat, r: nat)
    requires 0 < j <= 10 && r < 4
    ensures WordByte(RconTable()[j], r) == Rcon(j, r)
  {
    assert PowerOfX(1) == 0x02 && PowerOfX(2) == 0x04 && PowerOfX(3) == 0x08;
    assert PowerOfX(4) == 0x10 && PowerOfX(5) == 0x20 && PowerOfX(6) == 0x40;
    assert PowerOfX(7) == 0x80 && PowerOfX(8) == 0x1b && PowerOfX(9) == 0x36;
  }

  ghost predicate Expanded(words: seq<bv32>, key: Block, n: nat) {
    n <= |words| && forall i, r :: 0 <= i < n && 0 <= r < 4 ==> WordByte(words[i], r) == KeyByte(key, i, r)
  }

  lemma FirstWord(words: seq<bv32>, key: Block, i: nat, w: bv32)
    requires Expanded(words, key, i) && i < 4 && i < |words|
    requires w == BigEndian(key[4 * i], key[4 * i + 1], key[4 * i + 2], key[4 * i + 3])
    ensures Expanded(words[i := w], key, i + 1)
  {
    hide WordByte, BigEndian;
    JoinedBytes(key[4 * i], key[4 * i + 1], key[4 * i + 2], key[4 * i + 3]);
  }

  lemma ExpandedAt(words: seq<bv32>, key: Block, n: nat, i: nat, r: nat)
    requires Expanded(words, key, n) && i < n && r < 4
    ensures WordByte(words[i], r) == KeyByte(key, i, r)
  {
    hide WordByte, KeyByte;
  }

  lemma ExpandedNext(words: seq<bv32>, key: Block, n: nat, w: bv32)
    requires Expanded(words, key, n) && n < |words| && forall r :: 0 <= r < 4 ==> WordByte(w, r) == KeyByte(key, n, r)
    ensures Expanded(words[n := w], key, n + 1)
  {
    hide WordByte, KeyByte;
  }

  lemma NextWord(words: seq<bv32>, key: Block, i: nat, w: bv32)
    requires Expanded(words, key, i) && 4 <= i < 44 == |words|
    requires w == XorWord(words[i - 4],
                          if i % 4 == 0 then XorWord(SubWord(RotWord(words[i - 1])), RconTable()[i / 4])
                          else words[i - 1])
    ensures Expanded(words[i := w], key, i + 1)
  {
    hide WordByte, SubByte, SubWord, RotWord, XorWord, GfAdd, RconTable, Rcon, Expanded;
    forall r | 0 <= r < 4
      ensures WordByte(w, r) == KeyByte(key, i, r)
    {
      ExpandedAt(words, key, i, i - 4, r);
      ExpandedAt(words, key, i, i - 1, r);
      ExpandedAt(words, key, i, i - 1, (r + 1) % 4);
      if i % 4 == 0 {
        XoredBytes(words[i - 4], XorWord(SubWord(RotWord(words[i - 1])), RconTable()[i / 4]), r);
        XoredBytes(SubWord(RotWord(words[i - 1])), RconTable()[i / 4], r);
        SubstitutedBytes(RotWord(words[i - 1]), r);
        RotatedBytes(words[i - 1], r);
        RconPowers(i / 4, r);
      } else {
        XoredBytes(words[i - 4], words[i - 1], r);
      }
    }
    ExpandedNext(words, key, i, w);
  }

  method PutWord(words: array<bv32>, i: nat, w: bv32)
    requires i < words.Length
    modifies words
    ensures words[..] == old(words[..])[i := w]
  {
    words[i] := w;
  }

  /** tc_aes128_set_encrypt_key, and tc_aes128_set_decrypt_key, which is the same. */
  method SetEncryptKey(words: array<bv32>, k: array<bv8>)
    requires words.Length == 44 && k.Length >= 16
    modifies words
    ensures Expanded(words[..], k[..16], 44)
  {
    hide *;
    ghost var key: Block := k[..16];
    var i := 0;
    NothingExpanded(words[..], key);
    while i < 4
      invariant 0 <= i <= 4 && Expanded(words[..], key, i)
    {
      var w := BigEndian(k[4 * i], k[4 * i + 1], k[4 * i + 2], k[4 * i + 3]);
      FirstWord(words[..], key, i, w);
      PutWord(words, i, w);
      i := i + 1;
    }
    while i < 44
      invariant 4 <= i <= 44 && Expanded(words[..], key, i)
    {
      var t := words[i - 1];
      if i % 4 == 0 {
        t := XorWord(SubWord(RotWord(t)), RconTable()[i / 4]);
      }
      NextWord(words[..], key, i, XorWord(words[i - 4], t));
      PutWord(words, i, XorWord(words[i - 4], t));
      i := i + 1;
    }
  }

  lemma NothingExpanded(words: seq<bv32>, key: Block)
    ensures Expanded(words, key, 0)
  {
  }

  /** The round keys that the cipher uses are the ones of the standard. */
  lemma RoundKeyBytes(w: KeySchedule, key: Block, n: nat, i: nat)
    requires Expanded(w, key, 44) && n <= 10 && i < 16
    ensures RoundKey(w, n)[i] == KeyByte(key, 4 * n + i / 4, i % 4)
  {
    hide WordByte, KeyByte, Expanded;
    ExpandedAt(w, key, 44, 4 * n + i / 4, i % 4);
  }

  // ---- Encryption and decryption ----

  /** The block function of a schedule. */
  function Under(w: KeySchedule): BlockFn {
    (s: Block) => Cipher(s, w)
  }

  lemma ForwardNext(s: Block, w: KeySchedule, n: nat)
    requires n <= 9
    ensures Forward(s, w, 0) == XorBlock(s, RoundKey(w, 0))
    ensures n > 0 ==>
              Forward(s, w, n) == XorBlock(MixColumns(ShiftRows(SubBytes(Forward(s, w, n - 1)))), RoundKey(w, n))
    ensures Cipher(s, w) == XorBlock(ShiftRows(SubBytes(Forward(s, w, 9))), RoundKey(w, 10))
  {
    hide MixColumns, ShiftRows, SubBytes, XorBlock, RoundKey;
  }

  lemma BackwardNext(s: Block, w: KeySchedule, n: nat)
    requires n <= 9
    ensures Backward(s, w, 9) == XorBlock(s, RoundKey(w, 10))
    ensures n < 9 ==>
              Backward(s, w, n)
                  == InvMixColumns(XorBlock(InvSubBytes(InvShiftRows(Backward(s, w, n + 1))), RoundKey(w, n + 1)))
    ensures InvCipher(s, w) == XorBlock(InvSubBytes(InvShiftRows(Backward(s, w, 0))), RoundKey(w, 0))
  {
    hide InvMixColumns, InvShiftRows, InvSubBytes, XorBlock, RoundKey;
  }

  /** tc_aes_encrypt; the output may be the input. */
  method Encrypt(out: array<bv8>, input: array<bv8>, words: array<bv32>)
    requires out.Length == 16 && input.Length == 16 && words.Length == 44
    modifies out
    ensures out[..] == Cipher(old(input[..]), words[..])
  {
    hide *;
    ghost var s: Block, w: KeySchedule := input[..], words[..];
    var state := new bv8[16];
    CopyBlock(state, input[..]);
    ForwardNext(s, w, 0);
    AddRoundKey(state, words, 0);
    var i := 0;
    while i < 9
      modifies state
      invariant 0 <= i <= 9 && state[..] == Forward(s, w, i)
    {
      ForwardNext(s, w, i + 1);
      SubBytesInPlace(state);
      ShiftRowsInPlace(state);
      MixColumnsInPlace(state);
      AddRoundKey(state, words, i + 1);
      i := i + 1;
    }
    SubBytesInPlace(state);
    ShiftRowsInPlace(state);
    AddRoundKey(state, words, i + 1);
    CopyBlock(out, state[..]);
  }

  /** tc_aes_decrypt; the output may be the input. */
  method Decrypt(out: array<bv8>, input: array<bv8>, words: array<bv32>)
    requires out.Length == 16 && input.Length == 16 && words.Length == 44
    modifies out
    ensures out[..] == InvCipher(old(input[..]), words[..])
  {
    hide *;
    ghost var s: Block, w: KeySchedule := input[..], words[..];
    var state := new bv8[16];
    CopyBlock(state, input[..]);
    BackwardNext(s, w, 9);
    AddRoundKey(state, words, 10);
    var i := 9;
    while i > 0
      modifies state
      invariant 0 <= i <= 9 && state[..] == Backward(s, w, i)
    {
      BackwardNext(s, w, i - 1);
      InvShiftRowsInPlace(state);
      InvSubBytesInPlace(state);
      AddRoundKey(state, words, i);
      InvMixColumnsInPlace(state);
      i := i - 1;
    }
    BackwardNext(s, w, 0);
    InvShiftRowsInPlace(state);
    InvSubBytesInPlace(state);
    AddRoundKey(state, words, 0);
    CopyBlock(out, state[..]);
  }
}
