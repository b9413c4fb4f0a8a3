/** A known answer: the example of appendixes A.1 and B of FIPS 197, one key with its schedule and one block. */
module AesVector {
  import opened Aes
  import opened AesCipher
  import opened AesSteps
  import opened Blocks
  import opened Gf256
  import opened Sbox

  // ---- Round keys ----

  /** Round key n of the key expansion. */
  function KeyAt(key: Block, n: nat): Block {
    seq(16, i requires 0 <= i < 16 => KeyByte(key, 4 * n + i / 4, i % 4))
  }

  /** The last word turned and substituted. */
  function Turned(a: bv8, b: bv8, c: bv8, d: bv8): (t: seq<bv8>)
    ensures |t| == 4
  {
    [SubByte(b), SubByte(c), SubByte(d), SubByte(a)]
  }

  /** The next round key from the one before, with its round constant. */
  predicate Follows(k: Block, c: bv8, next: Block) {
    var t := Turned(k[12], k[13], k[14], k[15]);
    && next[0] == GfAdd(k[0], GfAdd(t[0], c)) && next[1] == GfAdd(k[1], t[1])
    && next[2] == GfAdd(k[2], t[2]) && next[3] == GfAdd(k[3], t[3])
    && WordFollows(k, next, 1) && WordFollows(k, next, 2) && WordFollows(k, next, 3)
  }

  predicate WordFollows(k: Block, next: Block, j: nat)
    requires 0 < j < 4
  {
    && next[4 * j] == GfAdd(k[4 * j], next[4 * j - 4])
    && next[4 * j + 1] == GfAdd(k[4 * j + 1], next[4 * j - 3])
    && next[4 * j + 2] == GfAdd(k[4 * j + 2], next[4 * j - 2])
    && next[4 * j + 3] == GfAdd(k[4 * j + 3], next[4 * j - 1])
  }

  /** Word i of the key expansion is word j of the block. */
  predicate WordIs(key: Block, i: nat, b: Block, j: nat)
    requires j < 4
  {
    && KeyByte(key, i, 0) == b[4 * j] && KeyByte(key, i, 1) == b[4 * j + 1]
    && KeyByte(key, i, 2) == b[4 * j + 2] && KeyByte(key, i, 3) == b[4 * j + 3]
  }

  lemma KeyFollows(key: Block, n: nat, k: Block, next: Block)
    requires KeyAt(key, n) == k && Follows(k, Rcon(n + 1, 0), next)
    ensures KeyAt(key, n + 1) == next
  {
    hide *;
    WordsOfKey(key, n);
    FollowsWords(k, Rcon(n + 1, 0), next);
    FirstWordFollows(key, n, k, next);
    OtherWordFollows(key, n, k, next, 1);
    OtherWordFollows(key, n, k, next, 2);
    OtherWordFollows(key, n, k, next, 3);
    KeyOfWords(key, n + 1, next);
  }

  lemma FollowsWords(k: Block, c: bv8, next: Block)
    requires Follows(k, c, next)
    ensures WordFollows(k, next, 1) && WordFollows(k, next, 2) && WordFollows(k, next, 3)
  {
    hide Turned, WordFollows, GfAdd;
  }

  lemma WordsOfKey(key: Block, n: nat)
    ensures WordIs(key, 4 * n, KeyAt(key, n), 0) && WordIs(key, 4 * n + 1, KeyAt(key, n), 1)
    ensures WordIs(key, 4 * n + 2, KeyAt(key, n), 2) && WordIs(key, 4 * n + 3, KeyAt(key, n), 3)
  {
    hide KeyByte;
  }

  lemma KeyOfWords(key: Block, n: nat, b: Block)
    requires WordIs(key, 4 * n, b, 0) && WordIs(key, 4 * n + 1, b, 1)
    requires WordIs(key, 4 * n + 2, b, 2) && WordIs(key, 4 * n + 3, b, 3)
    ensures KeyAt(key, n) == b
  {
    hide KeyByte;
  }

  lemma FirstWordFollows(key: Block, n: nat, k: Block, next: Block)
    requires WordIs(key, 4 * n, k, 0) && WordIs(key, 4 * n + 3, k, 3) && Follows(k, Rcon(n + 1, 0), next)
    ensures WordIs(key, 4 * (n + 1), next, 0)
  {
    hide GfAdd, SubByte, PowerOfX, WordFollows;
    assert (4 * n + 4) / 4 == n + 1 && (4 * n + 4) % 4 == 0;
    NothingAdded(SubByte(k[14]));
    NothingAdded(SubByte(k[15]));
    NothingAdded(SubByte(k[12]));
  }

  lemma NothingAdded(x: bv8)
    ensures GfAdd(x, 0) == x
  {
  }

  lemma OtherWordFollows(key: Block, n: nat, k: Block, next: Block, j: nat)
    requires 0 < j < 4 && WordIs(key, 4 * n + j, k, j) && WordFollows(k, next, j)
    requires WordIs(key, 4 * (n + 1) + j - 1, next, j - 1)
    ensures WordIs(key, 4 * (n + 1) + j, next, j)
  {
    hide GfAdd, SubByte, Rcon;
    assert (4 * (n + 1) + j) % 4 == j;
  }

  lemma Turned1()
    ensures Turned(0x09, 0xcf, 0x4f, 0x3c) == [0x8a, 0x84, 0xeb, 0x01]
  {
  }

  lemma Key1(k: Block, next: Block)
    requires k == [0x2b, 0x7e, 0x15, 0x16, 0x28, 0xae, 0xd2, 0xa6, 0xab, 0xf7, 0x15, 0x88, 0x09, 0xcf, 0x4f, 0x3c]
    requires next == [0xa0, 0xfa, 0xfe, 0x17, 0x88, 0x54, 0x2c, 0xb1, 0x23, 0xa3, 0x39, 0x39, 0x2a, 0x6c, 0x76, 0x05]
    ensures Follows(k, 0x01, next)
  {
    hide Turned;
    Turned1();
  }

  lemma Turned2()
    ensures Turned(0x2a, 0x6c, 0x76, 0x05) == [0x50, 0x38, 0x6b, 0xe5]
  {
  }

  lemma Key2(k: Block, next: Block)
    requires k == [0xa0, 0xfa, 0xfe, 0x17, 0x88, 0x54, 0x2c, 0xb1, 0x23, 0xa3, 0x39, 0x39, 0x2a, 0x6c, 0x76, 0x05]
    requires next == [0xf2, 0xc2, 0x95, 0xf2, 0x7a, 0x96, 0xb9, 0x43, 0x59, 0x35, 0x80, 0x7a, 0x73, 0x59, 0xf6, 0x7f]
    ensures Follows(k, 0x02, next)
  {
    hide Turned;
    Turned2();
  }

  lemma Turned3()
    ensures Turned(0x73, 0x59, 0xf6, 0x7f) == [0xcb, 0x42, 0xd2, 0x8f]
  {
  }

  lemma Key3(k: Block, next: Block)
    requires k == [0xf2, 0xc2, 0x95, 0xf2, 0x7a, 0x96, 0xb9, 0x43, 0x59, 0x35, 0x80, 0x7a, 0x73, 0x59, 0xf6, 0x7f]
    requires next == [0x3d, 0x80, 0x47, 0x7d, 0x47, 0x16, 0xfe, 0x3e, 0x1e, 0x23, 0x7e, 0x44, 0x6d, 0x7a, 0x88, 0x3b]
    ensures Follows(k, 0x04, next)
  {
    hide Turned;
    Turned3();
  }

  lemma Turned4()
    ensures Turned(0x6d, 0x7a, 0x88, 0x3b) == [0xda, 0xc4, 0xe2, 0x3c]
  {
  }

  lemma Key4(k: Block, next: Block)
    requires k == [0x3d, 0x80, 0x47, 0x7d, 0x47, 0x16, 0xfe, 0x3e, 0x1e, 0x23, 0x7e, 0x44, 0x6d, 0x7a, 0x88, 0x3b]
    requires next == [0xef, 0x44, 0xa5, 0x41, 0xa8, 0x52, 0x5b, 0x7f, 0xb6, 0x71, 0x25, 0x3b, 0xdb, 0x0b, 0xad, 0x00]
    ensures Follows(k, 0x08, next)
  {
    hide Turned;
    Turned4();
  }

  lemma Turned5()
    ensures Turned(0xdb, 0x0b, 0xad, 0x00) == [0x2b, 0x95, 0x63, 0xb9]
  {
  }

  lemma Key5(k: Block, next: Block)
    requires k == [0xef, 0x44, 0xa5, 0x41, 0xa8, 0x52, 0x5b, 0x7f, 0xb6, 0x71, 0x25, 0x3b, 0xdb, 0x0b, 0xad, 0x00]
    requires next == [0xd4, 0xd1, 0xc6, 0xf8, 0x7c, 0x83, 0x9d, 0x87, 0xca, 0xf2, 0xb8, 0xbc, 0x11, 0xf9, 0x15, 0xbc]
    ensures Follows(k, 0x10, next)
  {
    hide Turned;
    Turned5();
  }

  lemma Turned6()
    ensures Turned(0x11, 0xf9, 0x15, 0xbc) == [0x99, 0x59, 0x65, 0x82]
  {
  }

  lemma Key6(k: Block, next: Block)
    requires k == [0xd4, 0xd1, 0xc6, 0xf8, 0x7c, 0x83, 0x9d, 0x87, 0xca, 0xf2, 0xb8, 0xbc, 0x11, 0xf9, 0x15, 0xbc]
    requires next == [0x6d, 0x88, 0xa3, 0x7a, 0x11, 0x0b, 0x3e, 0xfd, 0xdb, 0xf9, 0x86, 0x41, 0xca, 0x00, 0x93, 0xfd]
    ensures Follows(k, 0x20, next)
  {
    hide Turned;
    Turned6();
  }

  lemma Turned7()
    ensures Turned(0xca, 0x00, 0x93, 0xfd) == [0x63, 0xdc, 0x54, 0x74]
  {
  }

  lemma Key7(k: Block, next: Block)
    requires k == [0x6d, 0x88, 0xa3, 0x7a, 0x11, 0x0b, 0x3e, 0xfd, 0xdb, 0xf9, 0x86, 0x41, 0xca, 0x00, 0x93, 0xfd]
    requires next == [0x4e, 0x54, 0xf7, 0x0e, 0x5f, 0x5f, 0xc9, 0xf3, 0x84, 0xa6, 0x4f, 0xb2, 0x4e, 0xa6, 0xdc, 0x4f]
    ensures Follows(k, 0x40, next)
  {
    hide Turned;
    Turned7();
  }

  lemma Turned8()
    ensures Turned(0x4e, 0xa6, 0xdc, 0x4f) == [0x24, 0x86, 0x84, 0x2f]
  {
  }

  lemma Key8(k: Block, next: Block)
    requires k == [0x4e, 0x54, 0xf7, 0x0e, 0x5f, 0x5f, 0xc9, 0xf3, 0x84, 0xa6, 0x4f, 0xb2, 0x4e, 0xa6, 0xdc, 0x4f]
    requires next == [0xea, 0xd2, 0x73, 0x21, 0xb5, 0x8d, 0xba, 0xd2, 0x31, 0x2b, 0xf5, 0x60, 0x7f, 0x8d, 0x29, 0x2f]
    ensures Follows(k, 0x80, next)
  {
    hide Turned;
    Turned8();
  }

  lemma Turned9()
    ensures Turned(0x7f, 0x8d, 0x29, 0x2f) == [0x5d, 0xa5, 0x15, 0xd2]
  {
  }

  lemma Key9(k: Block, next: Block)
    requires k == [0xea, 0xd2, 0x73, 0x21, 0xb5, 0x8d, 0xba, 0xd2, 0x31, 0x2b, 0xf5, 0x60, 0x7f, 0x8d, 0x29, 0x2f]
    requires next == [0xac, 0x77, 0x66, 0xf3, 0x19, 0xfa, 0xdc, 0x21, 0x28, 0xd1, 0x29, 0x41, 0x57, 0x5c, 0x00, 0x6e]
    ensures Follows(k, 0x1b, next)
  {
    hide Turned;
    Turned9();
  }

  lemma Turned10()
    ensures Turned(0x57, 0x5c, 0x00, 0x6e) == [0x4a, 0x63, 0x9f, 0x5b]
  {
  }

  lemma Key10(k: Block, next: Block)
    requires k == [0xac, 0x77, 0x66, 0xf3, 0x19, 0xfa, 0xdc, 0x21, 0x28, 0xd1, 0x29, 0x41, 0x57, 0x5c, 0x00, 0x6e]
    requires next == [0xd0, 0x14, 0xf9, 0xa8, 0xc9, 0xee, 0x25, 0x89, 0xe1, 0x3f, 0x0c, 0xc8, 0xb6, 0x63, 0x0c, 0xa6]
    ensures Follows(k, 0x36, next)
  {
    hide Turned;
    Turned10();
  }

  // ---- Rounds ----

  /** Substitution and column mixing of one column after the shift of rows. */
  function Column(a: bv8, b: bv8, c: bv8, d: bv8): (r: seq<bv8>)
    ensures |r| == 4
  {
    RowColumn(SubByte(a), SubByte(b), SubByte(c), SubByte(d))
  }

  /** The columns of m are those of s, each byte of a column from another column of s. */
  predicate Mixed(s: Block, m: Block) {
    && Column(s[0], s[5], s[10], s[15]) == m[0..4] && Column(s[4], s[9], s[14], s[3]) == m[4..8]
    && Column(s[8], s[13], s[2], s[7]) == m[8..12] && Column(s[12], s[1], s[6], s[11]) == m[12..16]
  }

  lemma ColumnIs(a: bv8, b: bv8, c: bv8, d: bv8)
    ensures Column(a, b, c, d) == RowColumn(SubByte(a), SubByte(b), SubByte(c), SubByte(d))
  {
    hide RowColumn, SubByte;
  }

  lemma MixedParts(s: Block, m: Block)
    requires Mixed(s, m)
    ensures Column(s[0], s[5], s[10], s[15]) == m[0..4] && Column(s[4], s[9], s[14], s[3]) == m[4..8]
    ensures Column(s[8], s[13], s[2], s[7]) == m[8..12] && Column(s[12], s[1], s[6], s[11]) == m[12..16]
  {
    hide Column;
  }

  lemma MixedIs(s: Block, m: Block)
    requires Mixed(s, m)
    ensures MixColumns(ShiftRows(SubBytes(s))) == m
  {
    hide *;
    var t := ShiftRows(SubBytes(s));
    Shifted(s);
    MixedParts(s, m);
    ColumnIs(s[0], s[5], s[10], s[15]);
    ColumnIs(s[4], s[9], s[14], s[3]);
    ColumnIs(s[8], s[13], s[2], s[7]);
    ColumnIs(s[12], s[1], s[6], s[11]);
    MixedColumn(t, 0);
    MixedColumn(t, 1);
    MixedColumn(t, 2);
    MixedColumn(t, 3);
    FourColumns(MixColumns(t));
    FourColumns(m);
  }

  lemma Shifted(s: Block)
    ensures ShiftRows(SubBytes(s))
            == [SubByte(s[0]), SubByte(s[5]), SubByte(s[10]), SubByte(s[15]),
                SubByte(s[4]), SubByte(s[9]), SubByte(s[14]), SubByte(s[3]),
                SubByte(s[8]), SubByte(s[13]), SubByte(s[2]), SubByte(s[7]),
                SubByte(s[12]), SubByte(s[1]), SubByte(s[6]), SubByte(s[11])]
  {
    hide SubByte, ShiftRows;
    ShiftedRows(SubBytes(s));
  }

  lemma Column1a()
    ensures Column(0x19, 0xf4, 0x8d, 0x08) == [0x04, 0x66, 0x81, 0xe5]
  {
  }

  lemma Column1b()
    ensures Column(0xa0, 0xc6, 0x48, 0xbe) == [0xe0, 0xcb, 0x19, 0x9a]
  {
  }

  lemma Column1c()
    ensures Column(0x9a, 0xf8, 0xe3, 0x2b) == [0x48, 0xf8, 0xd3, 0x7a]
  {
  }

  lemma Column1d()
    ensures Column(0xe9, 0x3d, 0xe2, 0x2a) == [0x28, 0x06, 0x26, 0x4c]
  {
  }

  lemma Round1(s: Block, k: Block)
    requires s == [0x19, 0x3d, 0xe3, 0xbe, 0xa0, 0xf4, 0xe2, 0x2b, 0x9a, 0xc6, 0x8d, 0x2a, 0xe9, 0xf8, 0x48, 0x08]
    requires k == [0xa0, 0xfa, 0xfe, 0x17, 0x88, 0x54, 0x2c, 0xb1, 0x23, 0xa3, 0x39, 0x39, 0x2a, 0x6c, 0x76, 0x05]
    ensures Round(s, k)
            == [0xa4, 0x9c, 0x7f, 0xf2, 0x68, 0x9f, 0x35, 0x2b, 0x6b, 0x5b, 0xea, 0x43, 0x02, 0x6a, 0x50, 0x49]
  {
    hide Column, MixColumns, ShiftRows, SubBytes;
    var m: Block := [0x04, 0x66, 0x81, 0xe5, 0xe0, 0xcb, 0x19, 0x9a, 0x48, 0xf8, 0xd3, 0x7a, 0x28, 0x06, 0x26, 0x4c];
    Column1a();
    Column1b();
    Column1c();
    Column1d();
    MixedIs(s, m);
  }

  lemma Column2a()
    ensures Column(0xa4, 0x9f, 0xea, 0x49) == [0x58, 0x4d, 0xca, 0xf1]
  {
  }

  lemma Column2b()
    ensures Column(0x68, 0x5b, 0x50, 0xf2) == [0x1b, 0x4b, 0x5a, 0xac]
  {
  }

  lemma Column2c()
    ensures Column(0x6b, 0x6a, 0x7f, 0x2b) == [0xdb, 0xe7, 0xca, 0xa8]
  {
  }

  lemma Column2d()
    ensures Column(0x02, 0x9c, 0x35, 0x43) == [0x1b, 0x6b, 0xb0, 0xe5]
  {
  }

  lemma Round2(s: Block, k: Block)
    requires s == [0xa4, 0x9c, 0x7f, 0xf2, 0x68, 0x9f, 0x35, 0x2b, 0x6b, 0x5b, 0xea, 0x43, 0x02, 0x6a, 0x50, 0x49]
    requires k == [0xf2, 0xc2, 0x95, 0xf2, 0x7a, 0x96, 0xb9, 0x43, 0x59, 0x35, 0x80, 0x7a, 0x73, 0x59, 0xf6, 0x7f]
    ensures Round(s, k)
            == [0xaa, 0x8f, 0x5f, 0x03, 0x61, 0xdd, 0xe3, 0xef, 0x82, 0xd2, 0x4a, 0xd2, 0x68, 0x32, 0x46, 0x9a]
  {
    hide Column, MixColumns, ShiftRows, SubBytes;
    var m: Block := [0x58, 0x4d, 0xca, 0xf1, 0x1b, 0x4b, 0x5a, 0xac, 0xdb, 0xe7, 0xca, 0xa8, 0x1b, 0x6b, 0xb0, 0xe5];
    Column2a();
    Column2b();
    Column2c();
    Column2d();
    MixedIs(s, m);
  }

  lemma Column3a()
    ensures Column(0xaa, 0xdd, 0x4a, 0x9a) == [0x75, 0xec, 0x09, 0x93]
  {
  }

  lemma Column3b()
    ensures Column(0x61, 0xd2, 0x46, 0x03) == [0x20, 0x0b, 0x63, 0x33]
  {
  }

  lemma Column3c()
    ensures Column(0x82, 0x32, 0x5f, 0xef) == [0x53, 0xc0, 0xcf, 0x7c]
  {
  }

  lemma Column3d()
    ensures Column(0x68, 0x8f, 0xe3, 0xd2) == [0xbb, 0x25, 0xd0, 0xdc]
  {
  }

  lemma Round3(s: Block, k: Block)
    requires s == [0xaa, 0x8f, 0x5f, 0x03, 0x61, 0xdd, 0xe3, 0xef, 0x82, 0xd2, 0x4a, 0xd2, 0x68, 0x32, 0x46, 0x9a]
    requires k == [0x3d, 0x80, 0x47, 0x7d, 0x47, 0x16, 0xfe, 0x3e, 0x1e, 0x23, 0x7e, 0x44, 0x6d, 0x7a, 0x88, 0x3b]
    ensures Round(s, k)
            == [0x48, 0x6c, 0x4e, 0xee, 0x67, 0x1d, 0x9d, 0x0d, 0x4d, 0xe3, 0xb1, 0x38, 0xd6, 0x5f, 0x58, 0xe7]
  {
    hide Column, MixColumns, ShiftRows, SubBytes;
    var m: Block := [0x75, 0xec, 0x09, 0x93, 0x20, 0x0b, 0x63, 0x33, 0x53, 0xc0, 0xcf, 0x7c, 0xbb, 0x25, 0xd0, 0xdc];
    Column3a();
    Column3b();
    Column3c();
    Column3d();
    MixedIs(s, m);
  }

  lemma Column4a()
    ensures Column(0x48, 0x1d, 0xb1, 0xe7) == [0x0f, 0xd6, 0xda, 0xa9]
  {
  }

  lemma Column4b()
    ensures Column(0x67, 0xe3, 0x58, 0xee) == [0x60, 0x31, 0x38, 0xbf]
  {
  }

  lemma Column4c()
    ensures Column(0x4d, 0x5f, 0x4e, 0x0d) == [0x6f, 0xc0, 0x10, 0x6b]
  {
  }

  lemma Column4d()
    ensures Column(0xd6, 0x6c, 0x9d, 0x38) == [0x5e, 0xb3, 0x13, 0x01]
  {
  }

  lemma Round4(s: Block, k: Block)
    requires s == [0x48, 0x6c, 0x4e, 0xee, 0x67, 0x1d, 0x9d, 0x0d, 0x4d, 0xe3, 0xb1, 0x38, 0xd6, 0x5f, 0x58, 0xe7]
    requires k == [0xef, 0x44, 0xa5, 0x41, 0xa8, 0x52, 0x5b, 0x7f, 0xb6, 0x71, 0x25, 0x3b, 0xdb, 0x0b, 0xad, 0x00]
    ensures Round(s, k)
            == [0xe0, 0x92, 0x7f, 0xe8, 0xc8, 0x63, 0x63, 0xc0, 0xd9, 0xb1, 0x35, 0x50, 0x85, 0xb8, 0xbe, 0x01]
  {
    hide Column, MixColumns, ShiftRows, SubBytes;
    var m: Block := [0x0f, 0xd6, 0xda, 0xa9, 0x60, 0x31, 0x38, 0xbf, 0x6f, 0xc0, 0x10, 0x6b, 0x5e, 0xb3, 0x13, 0x01];
    Column4a();
    Column4b();
    Column4c();
    Column4d();
    MixedIs(s, m);
  }

  lemma Column5a()
    ensures Column(0xe0, 0x63, 0x35, 0x01) == [0x25, 0xd1, 0xa9, 0xad]
  {
  }

  lemma Column5b()
    ensures Column(0xc8, 0xb1, 0xbe, 0xe8) == [0xbd, 0x11, 0xd1, 0x68]
  {
  }

  lemma Column5c()
    ensures Column(0xd9, 0xb8, 0x7f, 0xc0) == [0xb6, 0x3a, 0x33, 0x8e]
  {
  }

  lemma Column5d()
    ensures Column(0x85, 0x92, 0x63, 0x50) == [0x4c, 0x4c, 0xc0, 0xb0]
  {
  }

  lemma Round5(s: Block, k: Block)
    requires s == [0xe0, 0x92, 0x7f, 0xe8, 0xc8, 0x63, 0x63, 0xc0, 0xd9, 0xb1, 0x35, 0x50, 0x85, 0xb8, 0xbe, 0x01]
    requires k == [0xd4, 0xd1, 0xc6, 0xf8, 0x7c, 0x83, 0x9d, 0x87, 0xca, 0xf2, 0xb8, 0xbc, 0x11, 0xf9, 0x15, 0xbc]
    ensures Round(s, k)
            == [0xf1, 0x00, 0x6f, 0x55, 0xc1, 0x92, 0x4c, 0xef, 0x7c, 0xc8, 0x8b, 0x32, 0x5d, 0xb5, 0xd5, 0x0c]
  {
    hide Column, MixColumns, ShiftRows, SubBytes;
    var m: Block := [0x25, 0xd1, 0xa9, 0xad, 0xbd, 0x11, 0xd1, 0x68, 0xb6, 0x3a, 0x33, 0x8e, 0x4c, 0x4c, 0xc0, 0xb0];
    Column5a();
    Column5b();
    Column5c();
    Column5d();
    MixedIs(s, m);
  }

  lemma Column6a()
    ensures Column(0xf1, 0x92, 0x8b, 0x0c) == [0x4b, 0x86, 0x8d, 0x6d]
  {
  }

  lemma Column6b()
    ensures Column(0xc1, 0xc8, 0xd5, 0x55) == [0x2c, 0x4a, 0x89, 0x80]
  {
  }

  lemma Column6c()
    ensures Column(0x7c, 0xb5, 0x6f, 0xef) == [0x33, 0x9d, 0xf4, 0xe8]
  {
  }

  lemma Column6d()
    ensures Column(0x5d, 0x00, 0x4c, 0x32) == [0x37, 0xd2, 0x18, 0xd8]
  {
  }

  lemma Round6(s: Block, k: Block)
    requires s == [0xf1, 0x00, 0x6f, 0x55, 0xc1, 0x92, 0x4c, 0xef, 0x7c, 0xc8, 0x8b, 0x32, 0x5d, 0xb5, 0xd5, 0x0c]
    requires k == [0x6d, 0x88, 0xa3, 0x7a, 0x11, 0x0b, 0x3e, 0xfd, 0xdb, 0xf9, 0x86, 0x41, 0xca, 0x00, 0x93, 0xfd]
    ensures Round(s, k)
            == [0x26, 0x0e, 0x2e, 0x17, 0x3d, 0x41, 0xb7, 0x7d, 0xe8, 0x64, 0x72, 0xa9, 0xfd, 0xd2, 0x8b, 0x25]
  {
    hide Column, MixColumns, ShiftRows, SubBytes;
    var m: Block := [0x4b, 0x86, 0x8d, 0x6d, 0x2c, 0x4a, 0x89, 0x80, 0x33, 0x9d, 0xf4, 0xe8, 0x37, 0xd2, 0x18, 0xd8];
    Column6a();
    Column6b();
    Column6c();
    Column6d();
    MixedIs(s, m);
  }

  lemma Column7a()
    ensures Column(0x26, 0x41, 0x72, 0x25) == [0x14, 0x15, 0xb5, 0xbf]
  {
  }

  lemma Column7b()
    ensures Column(0x3d, 0x64, 0x8b, 0x17) == [0x46, 0x16, 0x15, 0xec]
  {
  }

  lemma Column7c()
    ensures Column(0xe8, 0xd2, 0x2e, 0x7d) == [0x27, 0x46, 0x56, 0xd7]
  {
  }

  lemma Column7d()
    ensures Column(0xfd, 0x0e, 0xb7, 0xa9) == [0x34, 0x2a, 0xd8, 0x43]
  {
  }

  lemma Round7(s: Block, k: Block)
    requires s == [0x26, 0x0e, 0x2e, 0x17, 0x3d, 0x41, 0xb7, 0x7d, 0xe8, 0x64, 0x72, 0xa9, 0xfd, 0xd2, 0x8b, 0x25]
    requires k == [0x4e, 0x54, 0xf7, 0x0e, 0x5f, 0x5f, 0xc9, 0xf3, 0x84, 0xa6, 0x4f, 0xb2, 0x4e, 0xa6, 0xdc, 0x4f]
    ensures Round(s, k)
            == [0x5a, 0x41, 0x42, 0xb1, 0x19, 0x49, 0xdc, 0x1f, 0xa3, 0xe0, 0x19, 0x65, 0x7a, 0x8c, 0x04, 0x0c]
  {
    hide Column, MixColumns, ShiftRows, SubBytes;
    var m: Block := [0x14, 0x15, 0xb5, 0xbf, 0x46, 0x16, 0x15, 0xec, 0x27, 0x46, 0x56, 0xd7, 0x34, 0x2a, 0xd8, 0x43];
    Column7a();
    Column7b();
    Column7c();
    Column7d();
    MixedIs(s, m);
  }

  lemma Column8a()
    ensures Column(0x5a, 0x49, 0x19, 0x0c) == [0x00, 0x51, 0x2f, 0xd1]
  {
  }

  lemma Column8b()
    ensures Column(0x19, 0xe0, 0x04, 0xb1) == [0xb1, 0xc8, 0x89, 0xff]
  {
  }

  lemma Column8c()
    ensures Column(0xa3, 0x8c, 0x42, 0x1f) == [0x54, 0x76, 0x6d, 0xcd]
  {
  }

  lemma Column8d()
    ensures Column(0x7a, 0x41, 0xdc, 0x65) == [0xfa, 0x1b, 0x99, 0xea]
  {
  }

  lemma Round8(s: Block, k: Block)
    requires s == [0x5a, 0x41, 0x42, 0xb1, 0x19, 0x49, 0xdc, 0x1f, 0xa3, 0xe0, 0x19, 0x65, 0x7a, 0x8c, 0x04, 0x0c]
    requires k == [0xea, 0xd2, 0x73, 0x21, 0xb5, 0x8d, 0xba, 0xd2, 0x31, 0x2b, 0xf5, 0x60, 0x7f, 0x8d, 0x29, 0x2f]
    ensures Round(s, k)
            == [0xea, 0x83, 0x5c, 0xf0, 0x04, 0x45, 0x33, 0x2d, 0x65, 0x5d, 0x98, 0xad, 0x85, 0x96, 0xb0, 0xc5]
  {
    hide Column, MixColumns, ShiftRows, SubBytes;
    var m: Block := [0x00, 0x51, 0x2f, 0xd1, 0xb1, 0xc8, 0x89, 0xff, 0x54, 0x76, 0x6d, 0xcd, 0xfa, 0x1b, 0x99, 0xea];
    Column8a();
    Column8b();
    Column8c();
    Column8d();
    MixedIs(s, m);
  }

  lemma Column9a()
    ensures Column(0xea, 0x45, 0x98, 0xc5) == [0x47, 0x37, 0x94, 0xed]
  {
  }

  lemma Column9b()
    ensures Column(0x04, 0x5d, 0xb0, 0xf0) == [0x40, 0xd4, 0xe4, 0xa5]
  {
  }

  lemma Column9c()
    ensures Column(0x65, 0x96, 0x5c, 0x2d) == [0xa3, 0x70, 0x3a, 0xa6]
  {
  }

  lemma Column9d()
    ensures Column(0x85, 0x83, 0x33, 0xad) == [0x4c, 0x9f, 0x42, 0xbc]
  {
  }

  lemma Round9(s: Block, k: Block)
    requires s == [0xea, 0x83, 0x5c, 0xf0, 0x04, 0x45, 0x33, 0x2d, 0x65, 0x5d, 0x98, 0xad, 0x85, 0x96, 0xb0, 0xc5]
    requires k == [0xac, 0x77, 0x66, 0xf3, 0x19, 0xfa, 0xdc, 0x21, 0x28, 0xd1, 0x29, 0x41, 0x57, 0x5c, 0x00, 0x6e]
    ensures Round(s, k)
            == [0xeb, 0x40, 0xf2, 0x1e, 0x59, 0x2e, 0x38, 0x84, 0x8b, 0xa1, 0x13, 0xe7, 0x1b, 0xc3, 0x42, 0xd2]
  {
    hide Column, MixColumns, ShiftRows, SubBytes;
    var m: Block := [0x47, 0x37, 0x94, 0xed, 0x40, 0xd4, 0xe4, 0xa5, 0xa3, 0x70, 0x3a, 0xa6, 0x4c, 0x9f, 0x42, 0xbc];
    Column9a();
    Column9b();
    Column9c();
    Column9d();
    MixedIs(s, m);
  }

  lemma Lasta()
    ensures SubByte(0xeb) == 0xe9 && SubByte(0x2e) == 0x31
    ensures SubByte(0x13) == 0x7d && SubByte(0xd2) == 0xb5
  {
  }

  lemma Lastb()
    ensures SubByte(0x59) == 0xcb && SubByte(0xa1) == 0x32
    ensures SubByte(0x42) == 0x2c && SubByte(0x1e) == 0x72
  {
  }

  lemma Lastc()
    ensures SubByte(0x8b) == 0x3d && SubByte(0xc3) == 0x2e
    ensures SubByte(0xf2) == 0x89 && SubByte(0x84) == 0x5f
  {
  }

  lemma Lastd()
    ensures SubByte(0x1b) == 0xaf && SubByte(0x40) == 0x09
    ensures SubByte(0x38) == 0x07 && SubByte(0xe7) == 0x94
  {
  }

  lemma LastMixed(s: Block)
    requires s == [0xeb, 0x40, 0xf2, 0x1e, 0x59, 0x2e, 0x38, 0x84, 0x8b, 0xa1, 0x13, 0xe7, 0x1b, 0xc3, 0x42, 0xd2]
    ensures ShiftRows(SubBytes(s))
            == [0xe9, 0x31, 0x7d, 0xb5, 0xcb, 0x32, 0x2c, 0x72, 0x3d, 0x2e, 0x89, 0x5f, 0xaf, 0x09, 0x07, 0x94]
  {
    hide *;
    Lasta();
    Lastb();
    Lastc();
    Lastd();
    Shifted(s);
  }

  lemma LastAddition(m: Block, k: Block)
    requires m == [0xe9, 0x31, 0x7d, 0xb5, 0xcb, 0x32, 0x2c, 0x72, 0x3d, 0x2e, 0x89, 0x5f, 0xaf, 0x09, 0x07, 0x94]
    requires k == [0xd0, 0x14, 0xf9, 0xa8, 0xc9, 0xee, 0x25, 0x89, 0xe1, 0x3f, 0x0c, 0xc8, 0xb6, 0x63, 0x0c, 0xa6]
    ensures XorBlock(m, k)
            == [0x39, 0x25, 0x84, 0x1d, 0x02, 0xdc, 0x09, 0xfb, 0xdc, 0x11, 0x85, 0x97, 0x19, 0x6a, 0x0b, 0x32]
  {
    hide GfAdd, XorBlock;
    LastSums();
    XorIsAdd(m, k);
  }

  lemma FirstSums()
    ensures GfAdd(0x32, 0x2b) == 0x19 && GfAdd(0x43, 0x7e) == 0x3d && GfAdd(0xf6, 0x15) == 0xe3
            && GfAdd(0xa8, 0x16) == 0xbe
    ensures GfAdd(0x88, 0x28) == 0xa0 && GfAdd(0x5a, 0xae) == 0xf4 && GfAdd(0x30, 0xd2) == 0xe2
            && GfAdd(0x8d, 0xa6) == 0x2b
    ensures GfAdd(0x31, 0xab) == 0x9a && GfAdd(0x31, 0xf7) == 0xc6 && GfAdd(0x98, 0x15) == 0x8d
            && GfAdd(0xa2, 0x88) == 0x2a
    ensures GfAdd(0xe0, 0x09) == 0xe9 && GfAdd(0x37, 0xcf) == 0xf8 && GfAdd(0x07, 0x4f) == 0x48
            && GfAdd(0x34, 0x3c) == 0x08
  {
  }

  lemma LastSums()
    ensures GfAdd(0xe9, 0xd0) == 0x39 && GfAdd(0x31, 0x14) == 0x25 && GfAdd(0x7d, 0xf9) == 0x84
            && GfAdd(0xb5, 0xa8) == 0x1d
    ensures GfAdd(0xcb, 0xc9) == 0x02 && GfAdd(0x32, 0xee) == 0xdc && GfAdd(0x2c, 0x25) == 0x09
            && GfAdd(0x72, 0x89) == 0xfb
    ensures GfAdd(0x3d, 0xe1) == 0xdc && GfAdd(0x2e, 0x3f) == 0x11 && GfAdd(0x89, 0x0c) == 0x85
            && GfAdd(0x5f, 0xc8) == 0x97
    ensures GfAdd(0xaf, 0xb6) == 0x19 && GfAdd(0x09, 0x63) == 0x6a && GfAdd(0x07, 0x0c) == 0x0b
            && GfAdd(0x94, 0xa6) == 0x32
  {
  }

  lemma XorIsAdd(a: Block, b: Block)
    ensures forall i :: 0 <= i < 16 ==> XorBlock(a, b)[i] == GfAdd(a[i], b[i])
  {
  }

  function ExampleKey(): Block {
    [0x2b, 0x7e, 0x15, 0x16, 0x28, 0xae, 0xd2, 0xa6, 0xab, 0xf7, 0x15, 0x88, 0x09, 0xcf, 0x4f, 0x3c]
  }

  // The round keys, each from the one before.

  lemma KeyStep1(key: Block)
    requires KeyAt(key, 0)
             == [0x2b, 0x7e, 0x15, 0x16, 0x28, 0xae, 0xd2, 0xa6, 0xab, 0xf7, 0x15, 0x88, 0x09, 0xcf, 0x4f, 0x3c]
    ensures KeyAt(key, 1)
            == [0xa0, 0xfa, 0xfe, 0x17, 0x88, 0x54, 0x2c, 0xb1, 0x23, 0xa3, 0x39, 0x39, 0x2a, 0x6c, 0x76, 0x05]
  {
    hide *;
    RoundConstants();
    var next: Block := [0xa0, 0xfa, 0xfe, 0x17, 0x88, 0x54, 0x2c, 0xb1, 0x23, 0xa3, 0x39, 0x39, 0x2a, 0x6c, 0x76, 0x05];
    Key1(KeyAt(key, 0), next);
    KeyFollows(key, 0, KeyAt(key, 0), next);
  }

  lemma KeyStep2(key: Block)
    requires KeyAt(key, 1)
             == [0xa0, 0xfa, 0xfe, 0x17, 0x88, 0x54, 0x2c, 0xb1, 0x23, 0xa3, 0x39, 0x39, 0x2a, 0x6c, 0x76, 0x05]
    ensures KeyAt(key, 2)
            == [0xf2, 0xc2, 0x95, 0xf2, 0x7a, 0x96, 0xb9, 0x43, 0x59, 0x35, 0x80, 0x7a, 0x73, 0x59, 0xf6, 0x7f]
  {
    hide *;
    RoundConstants();
    var next: Block := [0xf2, 0xc2, 0x95, 0xf2, 0x7a, 0x96, 0xb9, 0x43, 0x59, 0x35, 0x80, 0x7a, 0x73, 0x59, 0xf6, 0x7f];
    Key2(KeyAt(key, 1), next);
    KeyFollows(key, 1, KeyAt(key, 1), next);
  }

  lemma KeyStep3(key: Block)
    requires KeyAt(key, 2)
             == [0xf2, 0xc2, 0x95, 0xf2, 0x7a, 0x96, 0xb9, 0x43, 0x59, 0x35, 0x80, 0x7a, 0x73, 0x59, 0xf6, 0x7f]
    ensures KeyAt(key, 3)
            == [0x3d, 0x80, 0x47, 0x7d, 0x47, 0x16, 0xfe, 0x3e, 0x1e, 0x23, 0x7e, 0x44, 0x6d, 0x7a, 0x88, 0x3b]
  {
    hide *;
    RoundConstants();
    var next: Block := [0x3d, 0x80, 0x47, 0x7d, 0x47, 0x16, 0xfe, 0x3e, 0x1e, 0x23, 0x7e, 0x44, 0x6d, 0x7a, 0x88, 0x3b];
    Key3(KeyAt(key, 2), next);
    KeyFollows(key, 2, KeyAt(key, 2), next);
  }

  lemma KeyStep4(key: Block)
    requires KeyAt(key, 3)
             == [0x3d, 0x80, 0x47, 0x7d, 0x47, 0x16, 0xfe, 0x3e, 0x1e, 0x23, 0x7e, 0x44, 0x6d, 0x7a, 0x88, 0x3b]
    ensures KeyAt(key, 4)
            == [0xef, 0x44, 0xa5, 0x41, 0xa8, 0x52, 0x5b, 0x7f, 0xb6, 0x71, 0x25, 0x3b, 0xdb, 0x0b, 0xad, 0x00]
  {
    hide *;
    RoundConstants();
    var next: Block := [0xef, 0x44, 0xa5, 0x41, 0xa8, 0x52, 0x5b, 0x7f, 0xb6, 0x71, 0x25, 0x3b, 0xdb, 0x0b, 0xad, 0x00];
    Key4(KeyAt(key, 3), next);
    KeyFollows(key, 3, KeyAt(key, 3), next);
  }

  lemma KeyStep5(key: Block)
    requires KeyAt(key, 4)
             == [0xef, 0x44, 0xa5, 0x41, 0xa8, 0x52, 0x5b, 0x7f, 0xb6, 0x71, 0x25, 0x3b, 0xdb, 0x0b, 0xad, 0x00]
    ensures KeyAt(key, 5)
            == [0xd4, 0xd1, 0xc6, 0xf8, 0x7c, 0x83, 0x9d, 0x87, 0xca, 0xf2, 0xb8, 0xbc, 0x11, 0xf9, 0x15, 0xbc]
  {
    hide *;
    RoundConstants();
    var next: Block := [0xd4, 0xd1, 0xc6, 0xf8, 0x7c, 0x83, 0x9d, 0x87, 0xca, 0xf2, 0xb8, 0xbc, 0x11, 0xf9, 0x15, 0xbc];
    Key5(KeyAt(key, 4), next);
    KeyFollows(key, 4, KeyAt(key, 4), next);
  }

  lemma KeyStep6(key: Block)
    requires KeyAt(key, 5)
             == [0xd4, 0xd1, 0xc6, 0xf8, 0x7c, 0x83, 0x9d, 0x87, 0xca, 0xf2, 0xb8, 0xbc, 0x11, 0xf9, 0x15, 0xbc]
    ensures KeyAt(key, 6)
            == [0x6d, 0x88, 0xa3, 0x7a, 0x11, 0x0b, 0x3e, 0xfd, 0xdb, 0xf9, 0x86, 0x41, 0xca, 0x00, 0x93, 0xfd]
  {
    hide *;
    RoundConstants();
    var next: Block := [0x6d, 0x88, 0xa3, 0x7a, 0x11, 0x0b, 0x3e, 0xfd, 0xdb, 0xf9, 0x86, 0x41, 0xca, 0x00, 0x93, 0xfd];
    Key6(KeyAt(key, 5), next);
    KeyFollows(key, 5, KeyAt(key, 5), next);
  }

  lemma KeyStep7(key: Block)
    requires KeyAt(key, 6)
             == [0x6d, 0x88, 0xa3, 0x7a, 0x11, 0x0b, 0x3e, 0xfd, 0xdb, 0xf9, 0x86, 0x41, 0xca, 0x00, 0x93, 0xfd]
    ensures KeyAt(key, 7)
            == [0x4e, 0x54, 0xf7, 0x0e, 0x5f, 0x5f, 0xc9, 0xf3, 0x84, 0xa6, 0x4f, 0xb2, 0x4e, 0xa6, 0xdc, 0x4f]
  {
    hide *;
    RoundConstants();
    var next: Block := [0x4e, 0x54, 0xf7, 0x0e, 0x5f, 0x5f, 0xc9, 0xf3, 0x84, 0xa6, 0x4f, 0xb2, 0x4e, 0xa6, 0xdc, 0x4f];
    Key7(KeyAt(key, 6), next);
    KeyFollows(key, 6, KeyAt(key, 6), next);
  }

  lemma KeyStep8(key: Block)
    requires KeyAt(key, 7)
             == [0x4e, 0x54, 0xf7, 0x0e, 0x5f, 0x5f, 0xc9, 0xf3, 0x84, 0xa6, 0x4f, 0xb2, 0x4e, 0xa6, 0xdc, 0x4f]
    ensures KeyAt(key, 8)
            == [0xea, 0xd2, 0x73, 0x21, 0xb5, 0x8d, 0xba, 0xd2, 0x31, 0x2b, 0xf5, 0x60, 0x7f, 0x8d, 0x29, 0x2f]
  {
    hide *;
    RoundConstants();
    var next: Block := [0xea, 0xd2, 0x73, 0x21, 0xb5, 0x8d, 0xba, 0xd2, 0x31, 0x2b, 0xf5, 0x60, 0x7f, 0x8d, 0x29, 0x2f];
    Key8(KeyAt(key, 7), next);
    KeyFollows(key, 7, KeyAt(key, 7), next);
  }

  lemma KeyStep9(key: Block)
    requires KeyAt(key, 8)
             == [0xea, 0xd2, 0x73, 0x21, 0xb5, 0x8d, 0xba, 0xd2, 0x31, 0x2b, 0xf5, 0x60, 0x7f, 0x8d, 0x29, 0x2f]
    ensures KeyAt(key, 9)
            == [0xac, 0x77, 0x66, 0xf3, 0x19, 0xfa, 0xdc, 0x21, 0x28, 0xd1, 0x29, 0x41, 0x57, 0x5c, 0x00, 0x6e]
  {
    hide *;
    RoundConstants();
    var next: Block := [0xac, 0x77, 0x66, 0xf3, 0x19, 0xfa, 0xdc, 0x21, 0x28, 0xd1, 0x29, 0x41, 0x57, 0x5c, 0x00, 0x6e];
    Key9(KeyAt(key, 8), next);
    KeyFollows(key, 8, KeyAt(key, 8), next);
  }

  lemma KeyStep10(key: Block)
    requires KeyAt(key, 9)
             == [0xac, 0x77, 0x66, 0xf3, 0x19, 0xfa, 0xdc, 0x21, 0x28, 0xd1, 0x29, 0x41, 0x57, 0x5c, 0x00, 0x6e]
    ensures KeyAt(key, 10)
            == [0xd0, 0x14, 0xf9, 0xa8, 0xc9, 0xee, 0x25, 0x89, 0xe1, 0x3f, 0x0c, 0xc8, 0xb6, 0x63, 0x0c, 0xa6]
  {
    hide *;
    RoundConstants();
    var next: Block := [0xd0, 0x14, 0xf9, 0xa8, 0xc9, 0xee, 0x25, 0x89, 0xe1, 0x3f, 0x0c, 0xc8, 0xb6, 0x63, 0x0c, 0xa6];
    Key10(KeyAt(key, 9), next);
    KeyFollows(key, 9, KeyAt(key, 9), next);
  }

  lemma ExampleRoundKeys(w: KeySchedule)
    requires Expanded(w, ExampleKey(), 44)
    ensures RoundKey(w, 0)
            == [0x2b, 0x7e, 0x15, 0x16, 0x28, 0xae, 0xd2, 0xa6, 0xab, 0xf7, 0x15, 0x88, 0x09, 0xcf, 0x4f, 0x3c]
    ensures RoundKey(w, 1)
            == [0xa0, 0xfa, 0xfe, 0x17, 0x88, 0x54, 0x2c, 0xb1, 0x23, 0xa3, 0x39, 0x39, 0x2a, 0x6c, 0x76, 0x05]
    ensures RoundKey(w, 2)
            == [0xf2, 0xc2, 0x95, 0xf2, 0x7a, 0x96, 0xb9, 0x43, 0x59, 0x35, 0x80, 0x7a, 0x73, 0x59, 0xf6, 0x7f]
    ensures RoundKey(w, 3)
            == [0x3d, 0x80, 0x47, 0x7d, 0x47, 0x16, 0xfe, 0x3e, 0x1e, 0x23, 0x7e, 0x44, 0x6d, 0x7a, 0x88, 0x3b]
    ensures RoundKey(w, 4)
            == [0xef, 0x44, 0xa5, 0x41, 0xa8, 0x52, 0x5b, 0x7f, 0xb6, 0x71, 0x25, 0x3b, 0xdb, 0x0b, 0xad, 0x00]
    ensures RoundKey(w, 5)
            == [0xd4, 0xd1, 0xc6, 0xf8, 0x7c, 0x83, 0x9d, 0x87, 0xca, 0xf2, 0xb8, 0xbc, 0x11, 0xf9, 0x15, 0xbc]
    ensures RoundKey(w, 6)
            == [0x6d, 0x88, 0xa3, 0x7a, 0x11, 0x0b, 0x3e, 0xfd, 0xdb, 0xf9, 0x86, 0x41, 0xca, 0x00, 0x93, 0xfd]
    ensures RoundKey(w, 7)
            == [0x4e, 0x54, 0xf7, 0x0e, 0x5f, 0x5f, 0xc9, 0xf3, 0x84, 0xa6, 0x4f, 0xb2, 0x4e, 0xa6, 0xdc, 0x4f]
    ensures RoundKey(w, 8)
            == [0xea, 0xd2, 0x73, 0x21, 0xb5, 0x8d, 0xba, 0xd2, 0x31, 0x2b, 0xf5, 0x60, 0x7f, 0x8d, 0x29, 0x2f]
    ensures RoundKey(w, 9)
            == [0xac, 0x77, 0x66, 0xf3, 0x19, 0xfa, 0xdc, 0x21, 0x28, 0xd1, 0x29, 0x41, 0x57, 0x5c, 0x00, 0x6e]
    ensures RoundKey(w, 10)
            == [0xd0, 0x14, 0xf9, 0xa8, 0xc9, 0xee, 0x25, 0x89, 0xe1, 0x3f, 0x0c, 0xc8, 0xb6, 0x63, 0x0c, 0xa6]
  {
    hide *;
    var key := ExampleKey();
    ExampleKeyIs();
    FirstKey(key);
    KeyStep1(key);
    KeyStep2(key);
    KeyStep3(key);
    KeyStep4(key);
    KeyStep5(key);
    KeyStep6(key);
    KeyStep7(key);
    KeyStep8(key);
    KeyStep9(key);
    KeyStep10(key);
    RoundKeyIs(w, key, 0);
    RoundKeyIs(w, key, 1);
    RoundKeyIs(w, key, 2);
    RoundKeyIs(w, key, 3);
    RoundKeyIs(w, key, 4);
    RoundKeyIs(w, key, 5);
    RoundKeyIs(w, key, 6);
    RoundKeyIs(w, key, 7);
    RoundKeyIs(w, key, 8);
    RoundKeyIs(w, key, 9);
    RoundKeyIs(w, key, 10);
  }

  lemma ExampleKeyIs()
    ensures ExampleKey()
            == [0x2b, 0x7e, 0x15, 0x16, 0x28, 0xae, 0xd2, 0xa6, 0xab, 0xf7, 0x15, 0x88, 0x09, 0xcf, 0x4f, 0x3c]
  {
  }

  lemma FirstKey(key: Block)
    ensures KeyAt(key, 0) == key
  {
    forall i | 0 <= i < 16
      ensures KeyAt(key, 0)[i] == key[i]
    {
      assert i == 4 * (i / 4) + i % 4;
    }
  }

  lemma RoundKeyIs(w: KeySchedule, key: Block, n: nat)
    requires Expanded(w, key, 44) && n <= 10
    ensures RoundKey(w, n) == KeyAt(key, n)
  {
    hide KeyByte, Expanded, RoundKey;
    forall i | 0 <= i < 16
      ensures RoundKey(w, n)[i] == KeyAt(key, n)[i]
    {
      RoundKeyBytes(w, key, n, i);
    }
  }

  function ExampleInput(): Block {
    [0x32, 0x43, 0xf6, 0xa8, 0x88, 0x5a, 0x30, 0x8d, 0x31, 0x31, 0x98, 0xa2, 0xe0, 0x37, 0x07, 0x34]
  }

  function ExampleOutput(): Block {
    [0x39, 0x25, 0x84, 0x1d, 0x02, 0xdc, 0x09, 0xfb, 0xdc, 0x11, 0x85, 0x97, 0x19, 0x6a, 0x0b, 0x32]
  }

  /** The example block under the schedule of the example key, in both directions. */
  lemma ExampleCipher(w: KeySchedule)
    requires Expanded(w, ExampleKey(), 44)
    ensures Cipher(ExampleInput(), w) == ExampleOutput() && InvCipher(ExampleOutput(), w) == ExampleInput()
  {
    hide Expanded, RoundKey, Round, XorBlock, ShiftRows, SubBytes, Cipher, InvCipher, Forward;
    var s := ExampleInput();
    ExampleRoundKeys(w);
    ForwardRounds(s, w);
    FirstAddition(s, RoundKey(w, 0));
    Round1(Forward(s, w, 0), RoundKey(w, 1));
    Round2(Forward(s, w, 1), RoundKey(w, 2));
    Round3(Forward(s, w, 2), RoundKey(w, 3));
    Round4(Forward(s, w, 3), RoundKey(w, 4));
    Round5(Forward(s, w, 4), RoundKey(w, 5));
    Round6(Forward(s, w, 5), RoundKey(w, 6));
    Round7(Forward(s, w, 6), RoundKey(w, 7));
    Round8(Forward(s, w, 7), RoundKey(w, 8));
    Round9(Forward(s, w, 8), RoundKey(w, 9));
    LastMixed(Forward(s, w, 9));
    LastAddition(ShiftRows(SubBytes(Forward(s, w, 9))), RoundKey(w, 10));
    DecryptEncrypt(s, w);
  }

  lemma FirstAddition(s: Block, k: Block)
    requires s == [0x32, 0x43, 0xf6, 0xa8, 0x88, 0x5a, 0x30, 0x8d, 0x31, 0x31, 0x98, 0xa2, 0xe0, 0x37, 0x07, 0x34]
    requires k == [0x2b, 0x7e, 0x15, 0x16, 0x28, 0xae, 0xd2, 0xa6, 0xab, 0xf7, 0x15, 0x88, 0x09, 0xcf, 0x4f, 0x3c]
    ensures XorBlock(s, k)
            == [0x19, 0x3d, 0xe3, 0xbe, 0xa0, 0xf4, 0xe2, 0x2b, 0x9a, 0xc6, 0x8d, 0x2a, 0xe9, 0xf8, 0x48, 0x08]
  {
    hide GfAdd, XorBlock;
    FirstSums();
    XorIsAdd(s, k);
  }

  lemma ForwardRounds(s: Block, w: KeySchedule)
    ensures Forward(s, w, 0) == XorBlock(s, RoundKey(w, 0))
    ensures Forward(s, w, 1) == Round(Forward(s, w, 0), RoundKey(w, 1))
    ensures Forward(s, w, 2) == Round(Forward(s, w, 1), RoundKey(w, 2))
    ensures Forward(s, w, 3) == Round(Forward(s, w, 2), RoundKey(w, 3))
    ensures Forward(s, w, 4) == Round(Forward(s, w, 3), RoundKey(w, 4))
    ensures Forward(s, w, 5) == Round(Forward(s, w, 4), RoundKey(w, 5))
    ensures Forward(s, w, 6) == Round(Forward(s, w, 5), RoundKey(w, 6))
    ensures Forward(s, w, 7) == Round(Forward(s, w, 6), RoundKey(w, 7))
    ensures Forward(s, w, 8) == Round(Forward(s, w, 7), RoundKey(w, 8))
    ensures Forward(s, w, 9) == Round(Forward(s, w, 8), RoundKey(w, 9))
    ensures Cipher(s, w) == XorBlock(ShiftRows(SubBytes(Forward(s, w, 9))), RoundKey(w, 10))
  {
    hide Round, XorBlock, ShiftRows, SubBytes, RoundKey;
  }
}
