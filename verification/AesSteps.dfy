/** The AES steps as the code does them, in place on the sixteen bytes of the state. */
module AesSteps {
  import opened Blocks
  import opened Gf256
  import opened Sbox
  import opened Aes
  import opened Utils
  import opened Word32

  // ---- The bytes of a word ----

  lemma JoinedBytes(a: bv8, b: bv8, c: bv8, d: bv8)
    ensures var w := BigEndian(a, b, c, d);
            WordByte(w, 0) == a && WordByte(w, 1) == b && WordByte(w, 2) == c && WordByte(w, 3) == d
  {
  }

  function XorWord(v: bv32, w: bv32): bv32 {
    v ^ w
  }

  lemma XoredBytes(v: bv32, w: bv32, r: nat)
    requires r < 4
    ensures WordByte(XorWord(v, w), r) == GfAdd(WordByte(v, r), WordByte(w, r))
  {
    hide Byte0, Byte1, Byte2, Byte3, XorWord, GfAdd;
    Xored0(v, w);
    Xored1(v, w);
    Xored2(v, w);
    Xored3(v, w);
  }

  lemma Xored0(v: bv32, w: bv32)
    ensures Byte0(XorWord(v, w)) == GfAdd(Byte0(v), Byte0(w))
  {
  }

  lemma Xored1(v: bv32, w: bv32)
    ensures Byte1(XorWord(v, w)) == GfAdd(Byte1(v), Byte1(w))
  {
  }

  lemma Xored2(v: bv32, w: bv32)
    ensures Byte2(XorWord(v, w)) == GfAdd(Byte2(v), Byte2(w))
  {
  }

  lemma Xored3(v: bv32, w: bv32)
    ensures Byte3(XorWord(v, w)) == GfAdd(Byte3(v), Byte3(w))
  {
  }

  // ---- add_round_key ----

  /** The first n bytes of the state have their key bytes added. */
  ghost predicate KeyAdded(now: seq<bv8>, was: Block, k: Block, n: nat) {
    |now| == 16 && n <= 16 && now == XorBlock(was, k)[..n] + was[n..]
  }

  lemma KeyAddedNext(now: seq<bv8>, was: Block, k: Block, n: nat, x: bv8)
    requires KeyAdded(now, was, k, n) && n < 16 && (x == k[n] || x == now[n] ^ k[n])
    ensures now[n] == was[n]
    ensures KeyAdded(now[n := now[n] ^ k[n]], was, k, n + 1)
  {
    assert XorBlock(was, k)[n] == was[n] ^ k[n];
  }

  lemma RoundKeyAt(w: KeySchedule, n: nat, c: nat, r: nat)
    requires n <= 10 && c < 4 && r < 4
    ensures RoundKey(w, n)[4 * c + r] == WordByte(w[4 * n + c], r)
  {
    hide WordByte;
    assert (4 * c + r) / 4 == c && (4 * c + r) % 4 == r;
  }

  /** s[4c] ^= (uint8_t)(k[c] >> 24) and so on: one byte of the key. */
  method AddByte(s: array<bv8>, words: array<bv32>, n: nat, c: nat, r: nat, ghost was: Block)
    requires s.Length == 16 && words.Length == 44 && n <= 10 && c < 4 && r < 4
    requires KeyAdded(s[..], was, RoundKey(words[..], n), 4 * c + r)
    modifies s
    ensures KeyAdded(s[..], was, RoundKey(words[..], n), 4 * c + r + 1)
  {
    hide *;
    RoundKeyAt(words[..], n, c, r);
    KeyAddedNext(s[..], was, RoundKey(words[..], n), 4 * c + r, WordByte(words[4 * n + c], r));
    Put(s, 4 * c + r, s[4 * c + r] ^ WordByte(words[4 * n + c], r));
  }

  lemma KeyAddedEnds(was: Block, k: Block, now: seq<bv8>)
    ensures KeyAdded(was, was, k, 0)
    ensures KeyAdded(now, was, k, 16) ==> now == XorBlock(was, k)
  {
  }

  /** add_round_key(s, words + 4 * n). */
  method AddRoundKey(s: array<bv8>, words: array<bv32>, n: nat)
    requires s.Length == 16 && words.Length == 44 && n <= 10
    modifies s
    ensures s[..] == XorBlock(old(s[..]), RoundKey(words[..], n))
  {
    hide *;
    ghost var was: Block, k := s[..], RoundKey(words[..], n);
    KeyAddedEnds(was, k, s[..]);
    AddByte(s, words, n, 0, 0, was);
    AddByte(s, words, n, 0, 1, was);
    AddByte(s, words, n, 0, 2, was);
    AddByte(s, words, n, 0, 3, was);
    AddByte(s, words, n, 1, 0, was);
    AddByte(s, words, n, 1, 1, was);
    AddByte(s, words, n, 1, 2, was);
    AddByte(s, words, n, 1, 3, was);
    AddByte(s, words, n, 2, 0, was);
    AddByte(s, words, n, 2, 1, was);
    AddByte(s, words, n, 2, 2, was);
    AddByte(s, words, n, 2, 3, was);
    AddByte(s, words, n, 3, 0, was);
    AddByte(s, words, n, 3, 1, was);
    AddByte(s, words, n, 3, 2, was);
    AddByte(s, words, n, 3, 3, was);
    KeyAddedEnds(was, k, s[..]);
  }

  // ---- sub_bytes and inv_sub_bytes ----

  lemma SubAt(s: Block, i: nat)
    requires i < 16
    ensures SubBytes(s)[i] == SubByte(s[i]) && InvSubBytes(s)[i] == InvSubByte(s[i])
  {
    hide SubByte, InvSubByte;
  }

  method SubBytesInPlace(s: array<bv8>)
    requires s.Length == 16
    modifies s
    ensures s[..] == SubBytes(old(s[..]))
  {
    hide *;
    ghost var was: Block := s[..];
    ghost var now := SubBytes(was);
    OverwriteEnds(was, now);
    var i := 0;
    while i < 16
      invariant 0 <= i <= 16 && s[..] == Overwritten(was, now, i)
    {
      SubAt(was, i);
      OverwriteNext(was, now, i);
      Put(s, i, SubByte(s[i]));
      i := i + 1;
    }
  }

  method InvSubBytesInPlace(s: array<bv8>)
    requires s.Length == 16
    modifies s
    ensures s[..] == InvSubBytes(old(s[..]))
  {
    hide *;
    ghost var was: Block := s[..];
    ghost var now := InvSubBytes(was);
    OverwriteEnds(was, now);
    var i := 0;
    while i < 16
      invariant 0 <= i <= 16 && s[..] == Overwritten(was, now, i)
    {
      SubAt(was, i);
      OverwriteNext(was, now, i);
      Put(s, i, InvSubByte(s[i]));
      i := i + 1;
    }
  }

  // ---- shift_rows and inv_shift_rows ----

  /** _copy(s, 16, t, 16) from the temporary block. */
  method CopyBlock(s: array<bv8>, t: Block)
    requires s.Length == 16
    modifies s
    ensures s[..] == t
  {
    var i := 0;
    while i < 16
      invariant 0 <= i <= 16 && forall j :: 0 <= j < i ==> s[j] == t[j]
    {
      s[i] := t[i];
      i := i + 1;
    }
  }

  lemma ShiftedRows(s: Block)
    ensures ShiftRows(s)
            == [s[0], s[5], s[10], s[15], s[4], s[9], s[14], s[3], s[8], s[13], s[2], s[7], s[12], s[1], s[6], s[11]]
  {
    hide RightOf;
    RightOfTable();
  }

  lemma RightOfTable()
    ensures RightOf(0) == 0 && RightOf(1) == 5 && RightOf(2) == 10 && RightOf(3) == 15 && RightOf(4) == 4
            && RightOf(5) == 9 && RightOf(6) == 14 && RightOf(7) == 3
    ensures RightOf(8) == 8 && RightOf(9) == 13 && RightOf(10) == 2 && RightOf(11) == 7 && RightOf(12) == 12
            && RightOf(13) == 1 && RightOf(14) == 6 && RightOf(15) == 11
  {
  }

  lemma InvShiftedRows(s: Block)
    ensures InvShiftRows(s)
            == [s[0], s[13], s[10], s[7], s[4], s[1], s[14], s[11], s[8], s[5], s[2], s[15], s[12], s[9], s[6], s[3]]
  {
    hide LeftOf;
    LeftOfTable();
  }

  lemma LeftOfTable()
    ensures LeftOf(0) == 0 && LeftOf(1) == 13 && LeftOf(2) == 10 && LeftOf(3) == 7 && LeftOf(4) == 4 && LeftOf(5) == 1
            && LeftOf(6) == 14 && LeftOf(7) == 11
    ensures LeftOf(8) == 8 && LeftOf(9) == 5 && LeftOf(10) == 2 && LeftOf(11) == 15 && LeftOf(12) == 12
            && LeftOf(13) == 9 && LeftOf(14) == 6 && LeftOf(15) == 3
  {
  }

  method ShiftRowsInPlace(s: array<bv8>)
    requires s.Length == 16
    modifies s
    ensures s[..] == ShiftRows(old(s[..]))
  {
    hide *;
    ShiftedRows(s[..]);
    var t: Block :=
        [s[0], s[5], s[10], s[15], s[4], s[9], s[14], s[3], s[8], s[13], s[2], s[7], s[12], s[1], s[6], s[11]];
    CopyBlock(s, t);
  }

  method InvShiftRowsInPlace(s: array<bv8>)
    requires s.Length == 16
    modifies s
    ensures s[..] == InvShiftRows(old(s[..]))
  {
    hide *;
    InvShiftedRows(s[..]);
    var t: Block :=
        [s[0], s[13], s[10], s[7], s[4], s[1], s[14], s[11], s[8], s[5], s[2], s[15], s[12], s[9], s[6], s[3]];
    CopyBlock(s, t);
  }

  // ---- mix_columns and inv_mix_columns ----

  function Triple(a: bv8): bv8 {
    DoubleByte(a) ^ a
  }

  function Mult8(a: bv8): bv8 {
    DoubleByte(DoubleByte(DoubleByte(a)))
  }

  function Mult9(a: bv8): bv8 {
    Mult8(a) ^ a
  }

  function MultB(a: bv8): bv8 {
    Mult8(a) ^ DoubleByte(a) ^ a
  }

  function MultD(a: bv8): bv8 {
    Mult8(a) ^ DoubleByte(DoubleByte(a)) ^ a
  }

  function MultE(a: bv8): bv8 {
    Mult8(a) ^ DoubleByte(DoubleByte(a)) ^ DoubleByte(a)
  }

  /** The multipliers of the code are products in the field. */
  lemma Multiples(a: bv8)
    ensures DoubleByte(a) == GfMul(a, 0x02) && Triple(a) == GfMul(a, 0x03)
  {
  }

  lemma InvMultiples(a: bv8)
    ensures Mult9(a) == GfMul(a, 0x09) && MultB(a) == GfMul(a, 0x0b)
    ensures MultD(a) == GfMul(a, 0x0d) && MultE(a) == GfMul(a, 0x0e)
  {
    hide *;
    Nine(a);
    Eleven(a);
    Thirteen(a);
    Fourteen(a);
  }

  lemma Nine(a: bv8)
    ensures Mult9(a) == GfMul(a, 0x09)
  {
  }

  lemma Eleven(a: bv8)
    ensures MultB(a) == GfMul(a, 0x0b)
  {
  }

  lemma Thirteen(a: bv8)
    ensures MultD(a) == GfMul(a, 0x0d)
  {
  }

  lemma Fourteen(a: bv8)
    ensures MultE(a) == GfMul(a, 0x0e)
  {
  }

  /** A sum may start anywhere and run round. */
  lemma Turned(a: bv8, b: bv8, c: bv8, d: bv8)
    ensures Sum4(d, a, b, c) == Sum4(a, b, c, d) && Sum4(c, d, a, b) == Sum4(a, b, c, d)
            && Sum4(b, c, d, a) == Sum4(a, b, c, d)
  {
    hide *;
    TurnedOnce(a, b, c, d);
    TurnedOnce(d, a, b, c);
    TurnedOnce(c, d, a, b);
  }

  lemma TurnedOnce(a: bv8, b: bv8, c: bv8, d: bv8)
    ensures Sum4(b, c, d, a) == Sum4(a, b, c, d)
  {
    calc {
      Sum4(b, c, d, a);
      b ^ c ^ d ^ a;
      a ^ b ^ c ^ d;
      Sum4(a, b, c, d);
    }
  }

  /** The four bytes that mult_row_column makes of a column. */
  function RowColumn(a: bv8, b: bv8, c: bv8, d: bv8): (r: seq<bv8>)
    ensures |r| == 4
  {
    [Sum4(DoubleByte(a), Triple(b), c, d), Sum4(a, DoubleByte(b), Triple(c), d),
     Sum4(a, b, DoubleByte(c), Triple(d)), Sum4(Triple(a), b, c, DoubleByte(d))]
  }

  function InvRowColumn(a: bv8, b: bv8, c: bv8, d: bv8): (r: seq<bv8>)
    ensures |r| == 4
  {
    [Sum4(MultE(a), MultB(b), MultD(c), Mult9(d)), Sum4(Mult9(a), MultE(b), MultB(c), MultD(d)),
     Sum4(MultD(a), Mult9(b), MultE(c), MultB(d)), Sum4(MultB(a), MultD(b), Mult9(c), MultE(d))]
  }

  lemma RowColumnMixes(a: bv8, b: bv8, c: bv8, d: bv8)
    ensures RowColumn(a, b, c, d)
            == [MixByte(a, b, c, d), MixByte(b, c, d, a), MixByte(c, d, a, b), MixByte(d, a, b, c)]
  {
    hide Triple, DoubleByte, GfMul, Sum4;
    Multiples(a);
    Multiples(b);
    Multiples(c);
    Multiples(d);
    Turned(GfMul(b, 0x02), GfMul(c, 0x03), d, a);
    Turned(GfMul(c, 0x02), GfMul(d, 0x03), a, b);
    Turned(GfMul(d, 0x02), GfMul(a, 0x03), b, c);
  }

  lemma InvRowColumnMixes(a: bv8, b: bv8, c: bv8, d: bv8)
    ensures InvRowColumn(a, b, c, d)
            == [InvMixByte(a, b, c, d), InvMixByte(b, c, d, a), InvMixByte(c, d, a, b), InvMixByte(d, a, b, c)]
  {
    hide Mult9, MultB, MultD, MultE, GfMul, Sum4;
    InvMultiples(a);
    InvMultiples(b);
    InvMultiples(c);
    InvMultiples(d);
    Turned(GfMul(b, 0x0e), GfMul(c, 0x0b), GfMul(d, 0x0d), GfMul(a, 0x09));
    Turned(GfMul(c, 0x0e), GfMul(d, 0x0b), GfMul(a, 0x0d), GfMul(b, 0x09));
    Turned(GfMul(d, 0x0e), GfMul(a, 0x0b), GfMul(b, 0x0d), GfMul(c, 0x09));
  }

  lemma BelowTop(c: nat)
    requires c < 4
    ensures Below(4 * c, 1) == 4 * c + 1 && Below(4 * c, 2) == 4 * c + 2 && Below(4 * c, 3) == 4 * c + 3
  {
  }

  /** One column of the mixed state. */
  lemma MixedColumn(s: Block, c: nat)
    requires c < 4
    ensures MixColumns(s)[4 * c..4 * c + 4] == RowColumn(s[4 * c], s[4 * c + 1], s[4 * c + 2], s[4 * c + 3])
    ensures InvMixColumns(s)[4 * c..4 * c + 4] == InvRowColumn(s[4 * c], s[4 * c + 1], s[4 * c + 2], s[4 * c + 3])
  {
    hide *;
    BelowTop(c);
    MixAround(s, 4 * c);
    RowColumnMixes(s[4 * c], s[4 * c + 1], s[4 * c + 2], s[4 * c + 3]);
    InvRowColumnMixes(s[4 * c], s[4 * c + 1], s[4 * c + 2], s[4 * c + 3]);
    ColumnSlice(MixColumns(s), 4 * c, RowColumn(s[4 * c], s[4 * c + 1], s[4 * c + 2], s[4 * c + 3]));
    ColumnSlice(InvMixColumns(s), 4 * c, InvRowColumn(s[4 * c], s[4 * c + 1], s[4 * c + 2], s[4 * c + 3]));
  }

  lemma ColumnSlice(m: Block, i: nat, r: seq<bv8>)
    requires i + 4 <= 16 && |r| == 4
    requires m[i] == r[0] && m[i + 1] == r[1] && m[i + 2] == r[2] && m[i + 3] == r[3]
    ensures m[i..i + 4] == r
  {
  }

  lemma FourColumns(m: Block)
    ensures m == m[4 * 0..4 * 0 + 4] + m[4 * 1..4 * 1 + 4] + m[4 * 2..4 * 2 + 4] + m[4 * 3..4 * 3 + 4]
  {
  }

  method MixColumnsInPlace(s: array<bv8>)
    requires s.Length == 16
    modifies s
    ensures s[..] == MixColumns(old(s[..]))
  {
    hide *;
    ghost var was: Block := s[..];
    MixedColumn(was, 0);
    MixedColumn(was, 1);
    MixedColumn(was, 2);
    MixedColumn(was, 3);
    FourColumns(MixColumns(was));
    var t: Block := RowColumn(s[0], s[1], s[2], s[3]) + RowColumn(s[4], s[5], s[6], s[7])
         + RowColumn(s[8], s[9], s[10], s[11]) + RowColumn(s[12], s[13], s[14], s[15]);
    CopyBlock(s, t);
  }

  method InvMixColumnsInPlace(s: array<bv8>)
    requires s.Length == 16
    modifies s
    ensures s[..] == InvMixColumns(old(s[..]))
  {
    hide *;
    ghost var was: Block := s[..];
    MixedColumn(was, 0);
    MixedColumn(was, 1);
    MixedColumn(was, 2);
    MixedColumn(was, 3);
    FourColumns(InvMixColumns(was));
    var t: Block := InvRowColumn(s[0], s[1], s[2], s[3]) + InvRowColumn(s[4], s[5], s[6], s[7])
         + InvRowColumn(s[8], s[9], s[10], s[11]) + InvRowColumn(s[12], s[13], s[14], s[15]);
    CopyBlock(s, t);
  }
}
