/** SHA-256 on byte messages, and the streaming state that computes it. */
module Sha256 {
  import opened Compression
  import opened Utils

  // ---- FIPS 180-4 ----

  function Zeros(n: nat): (r: seq<bv8>)
    ensures |r| == n
  {
    seq(n, _ => 0)
  }

  function ByteOf(n: nat): bv8 {
    (n % 256) as bv8
  }

  /** The k low bytes of n, most significant first. */
  function LowBytes(n: nat, k: nat): (r: seq<bv8>)
    ensures |r| == k
  {
    if k == 0 then [] else LowBytes(n / 256, k - 1) + [ByteOf(n)]
  }

  function LengthBytes(n: nat): (r: seq<bv8>)
    ensures |r| == 8
  {
    LowBytes(n, 8)
  }

  /** Section 5.1.1: a one bit, the least number of zero bits, and the length of the message in bits. */
  function Padded(m: seq<bv8>): seq<bv8> {
    PaddedWith(m, LengthBytes(8 * |m|))
  }

  function PaddedWith(m: seq<bv8>, length: seq<bv8>): seq<bv8> {
    m + [0x80] + Zeros((55 - |m|) % 64) + length
  }

  /** Section 6.2: every whole block of d in turn. */
  function HashBlocks(hash: Hash, d: seq<bv8>): Hash
    decreases |d|
  {
    if |d| < 64 then hash else HashBlocks(Compressed(hash, d[..64]), d[64..])
  }

  function BytesOfWord(w: bv32): (r: seq<bv8>)
    ensures |r| == 4
  {
    [((w >> 24) & 0xFF) as bv8, ((w >> 16) & 0xFF) as bv8, ((w >> 8) & 0xFF) as bv8, (w & 0xFF) as bv8]
  }

  function BytesOfHash(hash: seq<bv32>): (r: seq<bv8>)
    ensures |r| == 4 * |hash|
  {
    if hash == [] then [] else BytesOfHash(hash[..|hash| - 1]) + BytesOfWord(hash[|hash| - 1])
  }

  function Digest(m: seq<bv8>): (r: seq<bv8>)
    ensures |r| == 32
  {
    BytesOfHash(HashBlocks(InitialHash(), Padded(m)))
  }

  // ---- About the padding ----

  /** The padded message is a whole number of blocks: one more than the message begins, and yet another
      one when the last block has no room for the length. */
  lemma PaddedLength(m: seq<bv8>)
    ensures |Padded(m)| == 64 * (|m| / 64 + if |m| % 64 < 56 then 1 else 2)
  {
    hide Zeros, LengthBytes;
    PaddingRoom(|m|);
  }

  lemma PaddingRoom(n: nat)
    ensures (55 - n) % 64 == if n % 64 < 56 then 55 - n % 64 else 119 - n % 64
  {
  }

  type Digit = d: nat | d < 256

  /** The k low digits of n in base 256, and the number that digits stand for. */
  function LowDigits(n: nat, k: nat): (r: seq<Digit>)
    ensures |r| == k
  {
    if k == 0 then [] else LowDigits(n / 256, k - 1) + [n % 256]
  }

  function Number(d: seq<Digit>): nat {
    if d == [] then 0 else 256 * Number(d[..|d| - 1]) + d[|d| - 1]
  }

  /** For messages of fewer than 2^61 bytes, the limit of the standard, the last eight bytes give the exact length in
      bits. */
  lemma LengthIsExact(m: seq<bv8>)
    requires |m| < 0x2000_0000_0000_0000
    ensures var d := LowDigits(8 * |m|, 8);
            Number(d) == 8 * |m| && forall i :: 0 <= i < 8 ==> Padded(m)[|Padded(m)| - 8 + i] == ByteOf(d[i])
  {
    hide ByteOf, LowDigits, LowBytes, Zeros, Number;
    assert Padded(m)[|Padded(m)| - 8..] == LengthBytes(8 * |m|);
    LowBytesAreDigits(8 * |m|, 8);
    Pow256Of8();
    LowDigitsNumber(8 * |m|, 8);
  }

  lemma {:induction false} LowBytesAreDigits(n: nat, k: nat)
    ensures forall i :: 0 <= i < k ==> LowBytes(n, k)[i] == ByteOf(LowDigits(n, k)[i])
  {
    if k > 0 {
      LowBytesAreDigits(n / 256, k - 1);
    }
  }

  function Pow256(k: nat): (r: nat)
    ensures r > 0
  {
    if k == 0 then 1 else 256 * Pow256(k - 1)
  }

  lemma {:induction false} LowDigitsNumber(n: nat, k: nat)
    requires n < Pow256(k)
    ensures Number(LowDigits(n, k)) == n
  {
    if k > 0 {
      LowDigitsNumber(n / 256, k - 1);
      var d := LowDigits(n, k);
      assert d[..k - 1] == LowDigits(n / 256, k - 1) && d[k - 1] == n % 256;
    }
  }

  lemma Pow256Of8()
    ensures Pow256(8) == 0x1_0000_0000_0000_0000
  {
    assert Pow256(4) == 0x1_0000_0000;
  }

  /** Whole multiples of 256^k leave the k low bytes alone. */
  lemma {:induction false} LowBytesWrap(n: nat, q: nat, k: nat)
    ensures LowBytes(n + Pow256(k) * q, k) == LowBytes(n, k)
  {
    if k > 0 {
      var y := Pow256(k - 1) * q;
      assert Pow256(k) * q == 256 * y;
      LowBytesWrap(n / 256, q, k - 1);
      SameByte(n, y);
    }
  }

  lemma SameByte(n: nat, y: nat)
    ensures ByteOf(n + 256 * y) == ByteOf(n) && (n + 256 * y) / 256 == n / 256 + y
  {
    assert (n + 256 * y) % 256 == n % 256;
  }

  // ---- About the chain of blocks ----

  lemma {:induction false} HashAppend(hash: Hash, a: seq<bv8>, b: seq<bv8>)
    requires |a| % 64 == 0
    ensures HashBlocks(hash, a + b) == HashBlocks(HashBlocks(hash, a), b)
    decreases |a|
  {
    hide Compressed;
    if a == [] {
      assert a + b == b;
    } else {
      assert (a + b)[..64] == a[..64] && (a + b)[64..] == a[64..] + b;
      HashAppend(Compressed(hash, a[..64]), a[64..], b);
    }
  }

  lemma HashOne(hash: Hash, d: seq<bv8>)
    requires |d| == 64
    ensures HashBlocks(hash, d) == Compressed(hash, d)
  {
    hide Compressed;
    assert d[..64] == d && HashBlocks(Compressed(hash, d), d[64..]) == Compressed(hash, d);
  }

  // ---- The streaming state after a message ----

  ghost predicate Holds(m: seq<bv8>, iv: Hash, left: Bytes64, off: nat, bits: nat) {
    && off == |m| % 64 && left[..off] == m[|m| - off..]
    && iv == HashBlocks(InitialHash(), m[..|m| - off])
    && bits == 8 * (|m| - off) % 0x1_0000_0000_0000_0000
  }

  lemma NothingHashed(left: Bytes64)
    ensures Holds([], InitialHash(), left, 0, 0)
  {
    hide InitialHash;
  }

  lemma PushByte(m: seq<bv8>, iv: Hash, left: Bytes64, off: nat, bits: nat, x: bv8)
    requires Holds(m, iv, left, off, bits) && off < 63
    ensures Holds(m + [x], iv, left[off := x], off + 1, bits)
  {
    hide HashBlocks, InitialHash;
    var k := |m| - off;
    assert (|m| + 1) % 64 == off + 1;
    assert (m + [x])[..k] == m[..k] && (m + [x])[k..] == m[k..] + [x] == left[off := x][..off + 1];
  }

  lemma PushLastByte(m: seq<bv8>, iv: Hash, left: Bytes64, off: nat, bits: nat, x: bv8)
    requires Holds(m, iv, left, off, bits) && off == 63
    ensures Holds(m + [x], Compressed(iv, left[off := x]), left[off := x], 0, (bits + 512) % 0x1_0000_0000_0000_0000)
  {
    hide HashBlocks, InitialHash, Compressed;
    var k := |m| - off;
    var block := left[off := x];
    assert (|m| + 1) % 64 == 0;
    FilledBlock(m, left, off, x);
    HashAppend(InitialHash(), m[..k], block);
    HashOne(iv, block);
  }

  lemma FilledBlock(m: seq<bv8>, left: Bytes64, off: nat, x: bv8)
    requires off == 63 <= |m| && left[..off] == m[|m| - off..]
    ensures m + [x] == m[..|m| - off] + left[off := x] && (m + [x])[..|m| + 1] == m + [x]
  {
    assert left[off := x] == left[..off] + [x];
  }

  lemma LengthWraps(n: nat)
    ensures LengthBytes(n % 0x1_0000_0000_0000_0000) == LengthBytes(n)
  {
    hide LowBytes;
    Pow256Of8();
    LowBytesWrap(n % 0x1_0000_0000_0000_0000, n / 0x1_0000_0000_0000_0000, 8);
  }

  /** The count of the state plus the bytes not yet counted, in 64 bits. */
  lemma BitsCounted(n: nat, off: nat, bits: nat)
    requires off <= n && bits == 8 * (n - off) % 0x1_0000_0000_0000_0000
    ensures (bits + 8 * off) % 0x1_0000_0000_0000_0000 == 8 * n % 0x1_0000_0000_0000_0000
  {
  }

  lemma CountOf(m: seq<bv8>, iv: Hash, left: Bytes64, off: nat, bits: nat)
    requires Holds(m, iv, left, off, bits)
    ensures LengthBytes((bits + 8 * off) % 0x1_0000_0000_0000_0000) == LengthBytes(8 * |m|)
  {
    hide HashBlocks, InitialHash, LengthBytes;
    BitsCounted(|m|, off, bits);
    LengthWraps(8 * |m|);
  }

  /** The padding fits behind the message: one more block. */
  lemma FinalOne(m: seq<bv8>, iv: Hash, left: Bytes64, off: nat, bits: nat, block: Bytes64, length: seq<bv8>)
    requires Holds(m, iv, left, off, bits) && off < 56 && |length| == 8
    requires block == left[..off] + [0x80] + Zeros(55 - off) + length
    ensures Compressed(iv, block) == HashBlocks(InitialHash(), PaddedWith(m, length))
  {
    hide HashBlocks, InitialHash, Compressed, Zeros;
    var k := |m| - off;
    OneBlock(m, left, off, block, length);
    HashAppend(InitialHash(), m[..k], block);
    HashOne(iv, block);
  }

  lemma OneBlock(m: seq<bv8>, left: Bytes64, off: nat, block: Bytes64, length: seq<bv8>)
    requires off == |m| % 64 && left[..off] == m[|m| - off..] && off < 56 && |length| == 8
    requires block == left[..off] + [0x80] + Zeros(55 - off) + length
    ensures PaddedWith(m, length) == m[..|m| - off] + block
  {
    hide Zeros;
    PaddingRoom(|m|);
  }

  /** The length does not fit: two more blocks. */
  lemma FinalTwo(m: seq<bv8>, iv: Hash, left: Bytes64, off: nat, bits: nat, first: Bytes64, second: Bytes64,
                 length: seq<bv8>)
    requires Holds(m, iv, left, off, bits) && off >= 56 && |length| == 8
    requires first == left[..off] + [0x80] + Zeros(63 - off) && second == Zeros(56) + length
    ensures Compressed(Compressed(iv, first), second) == HashBlocks(InitialHash(), PaddedWith(m, length))
  {
    hide HashBlocks, InitialHash, Compressed;
    var k := |m| - off;
    assert Zeros(119 - off) == Zeros(63 - off) + Zeros(56);
    TwoBlocks(m, left, off, first, second, length);
    HashAppend(InitialHash(), m[..k], first + second);
    HashAppend(iv, first, second);
    HashOne(iv, first);
    HashOne(Compressed(iv, first), second);
  }

  lemma TwoBlocks(m: seq<bv8>, left: Bytes64, off: nat, first: Bytes64, second: Bytes64, length: seq<bv8>)
    requires off == |m| % 64 && left[..off] == m[|m| - off..] && off >= 56
    requires first == left[..off] + [0x80] + Zeros(63 - off) && |length| == 8 && second == Zeros(56) + length
    requires Zeros(119 - off) == Zeros(63 - off) + Zeros(56)
    ensures PaddedWith(m, length) == m[..|m| - off] + (first + second)
  {
    hide Zeros;
    PaddingRoom(|m|);
  }

  // ---- The state and its calls ----

  method PutByte(a: array<bv8>, i: nat, n: nat)
    requires i < a.Length
    modifies a
    ensures a[..] == old(a[..])[i := ByteOf(n)]
  {
    hide *;
    ByteOfIs(n);
    a[i] := (n % 256) as bv8;
  }

  lemma ByteOfIs(n: nat)
    ensures ByteOf(n) == (n % 256) as bv8
  {
  }

  /** The eight shifts of the 64-bit count, from the last byte back. */
  method WriteLength(a: array<bv8>, bits: nat)
    requires a.Length == 64
    modifies a
    ensures a[..] == old(a[..56]) + LengthBytes(bits)
  {
    hide *;
    ghost var before := a[..];
    PutByte(a, 63, bits);
    PutByte(a, 62, bits / 0x100);
    PutByte(a, 61, bits / 0x1_0000);
    PutByte(a, 60, bits / 0x100_0000);
    PutByte(a, 59, bits / 0x1_0000_0000);
    PutByte(a, 58, bits / 0x100_0000_0000);
    PutByte(a, 57, bits / 0x1_0000_0000_0000);
    PutByte(a, 56, bits / 0x100_0000_0000_0000);
    EightBytes(before, ByteOf(bits / 0x100_0000_0000_0000), ByteOf(bits / 0x1_0000_0000_0000),
               ByteOf(bits / 0x100_0000_0000), ByteOf(bits / 0x1_0000_0000), ByteOf(bits / 0x100_0000),
               ByteOf(bits / 0x1_0000), ByteOf(bits / 0x100), ByteOf(bits));
    LengthBytesAre(bits);
  }

  lemma EightBytes(s: seq<bv8>, a: bv8, b: bv8, c: bv8, d: bv8, e: bv8, f: bv8, g: bv8, h: bv8)
    requires |s| == 64
    ensures s[63 := h][62 := g][61 := f][60 := e][59 := d][58 := c][57 := b][56 := a]
            == s[..56] + [a, b, c, d, e, f, g, h]
  {
  }

  lemma LengthBytesAre(n: nat)
    ensures LengthBytes(n)
            == [ByteOf(n / 0x100_0000_0000_0000), ByteOf(n / 0x1_0000_0000_0000), ByteOf(n / 0x100_0000_0000),
                ByteOf(n / 0x1_0000_0000), ByteOf(n / 0x100_0000), ByteOf(n / 0x1_0000), ByteOf(n / 0x100), ByteOf(n)]
  {
    hide ByteOf;
    var q := n / 0x1_0000_0000;
    LowQuotients(n);
    HighQuotients(n, q);
    FourBytes(n, 4);
    FourBytes(q, 0);
  }

  lemma FourBytes(n: nat, k: nat)
    ensures LowBytes(n, k + 4)
            == LowBytes(n / 0x1_0000_0000, k)
               + [ByteOf(n / 0x100_0000), ByteOf(n / 0x1_0000), ByteOf(n / 0x100), ByteOf(n)]
  {
    hide ByteOf;
    LowQuotients(n);
    assert LowBytes(n, k + 4) == LowBytes(n / 256, k + 3) + [ByteOf(n)];
    assert LowBytes(n / 256, k + 3) == LowBytes(n / 256 / 256, k + 2) + [ByteOf(n / 256)];
    assert LowBytes(n / 256 / 256, k + 2) == LowBytes(n / 256 / 256 / 256, k + 1) + [ByteOf(n / 256 / 256)];
    assert LowBytes(n / 256 / 256 / 256, k + 1)
           == LowBytes(n / 256 / 256 / 256 / 256, k) + [ByteOf(n / 256 / 256 / 256)];
  }

  lemma LowQuotients(n: nat)
    ensures n / 0x1_0000 == n / 0x100 / 0x100 && n / 0x100_0000 == n / 0x100 / 0x100 / 0x100
    ensures n / 0x1_0000_0000 == n / 0x100 / 0x100 / 0x100 / 0x100
  {
  }

  lemma HighQuotients(n: nat, q: nat)
    requires q == n / 0x1_0000_0000
    ensures n / 0x100_0000_0000 == q / 0x100 && n / 0x1_0000_0000_0000 == q / 0x1_0000
    ensures n / 0x100_0000_0000_0000 == q / 0x100_0000
  {
  }

  lemma HashBytesNext(hash: seq<bv32>, i: nat)
    requires i < |hash|
    ensures BytesOfHash(hash[..i + 1]) == BytesOfHash(hash[..i]) + BytesOfWord(hash[i])
  {
    hide BytesOfWord;
    assert hash[..i + 1][..i] == hash[..i];
  }

  lemma WordBytes(w: bv32)
    ensures BytesOfWord(w)
            == [((w >> 24) & 0xFF) as bv8, ((w >> 16) & 0xFF) as bv8, ((w >> 8) & 0xFF) as bv8, (w & 0xFF) as bv8]
  {
  }

  /** The words of the hash value, most significant bytes first. */
  method WriteDigest(digest: array<bv8>, at: nat, iv: array<bv32>)
    requires iv.Length == 8 && at + 32 <= digest.Length
    modifies digest
    ensures digest[..] == Spliced(old(digest[..]), at, BytesOfHash(iv[..]))
  {
    hide *;
    ghost var before, hash := digest[..], iv[..];
    var i := 0;
    NoBytes(before, at, hash);
    while i < 8
      invariant 0 <= i <= 8 && iv[..] == hash
      invariant digest[..] == Spliced(before, at, BytesOfHash(hash[..i]))
    {
      WriteWord(digest, at + 4 * i, iv[i], before, at, BytesOfHash(hash[..i]));
      HashBytesNext(hash, i);
      i := i + 1;
    }
    assert hash[..8] == hash;
  }

  lemma NoBytes(before: seq<bv8>, at: nat, hash: seq<bv32>)
    requires at <= |before|
    ensures before == Spliced(before, at, BytesOfHash(hash[..0]))
  {
  }

  method WriteWord(digest: array<bv8>, k: nat, t: bv32, ghost before: seq<bv8>, ghost at: nat, ghost done: seq<bv8>)
    requires k == at + |done| && k + 4 <= digest.Length == |before| && digest[..] == Spliced(before, at, done)
    modifies digest
    ensures digest[..] == Spliced(before, at, done + BytesOfWord(t))
  {
    hide *;
    ghost var b := BytesOfWord(t);
    WordBytes(t);
    SpliceSnoc(before, at, done, b[0]);
    SpliceSnoc(before, at, done + [b[0]], b[1]);
    SpliceSnoc(before, at, done + [b[0]] + [b[1]], b[2]);
    SpliceSnoc(before, at, done + [b[0]] + [b[1]] + [b[2]], b[3]);
    Put(digest, k, ((t >> 24) & 0xFF) as bv8);
    Put(digest, k + 1, ((t >> 16) & 0xFF) as bv8);
    Put(digest, k + 2, ((t >> 8) & 0xFF) as bv8);
    Put(digest, k + 3, (t & 0xFF) as bv8);
    assert done + [b[0]] + [b[1]] + [b[2]] + [b[3]] == done + b;
  }
}
