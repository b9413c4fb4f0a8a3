/** The CMAC of RFC 4493 and what a chunked computation of it amounts to, for an arbitrary block function. */
module Cmac {
  import opened Blocks
  import opened Cbc

  // ---- Doubling in GF(2^128) ----

  function Mask(j: nat): bv8
    requires j < 8
  {
    match j
    case 0 => 0x01
    case 1 => 0x02
    case 2 => 0x04
    case 3 => 0x08
    case 4 => 0x10
    case 5 => 0x20
    case 6 => 0x40
    case 7 => 0x80
  }

  predicate HasBit(x: bv8, j: nat)
    requires j < 8
  {
    x & Mask(j) != 0
  }

  /** The coefficient of X^k in the polynomial that a block stands for: the last byte holds the low degrees. */
  predicate Coefficient(b: Block, k: nat)
    requires k < 128
  {
    HasBit(b[15 - k / 8], k % 8)
  }

  /** The coefficient of X^k in X * b modulo X^128 + X^7 + X^2 + X + 1. */
  predicate TimesX(b: Block, k: nat)
    requires k < 128
  {
    var shifted := k > 0 && Coefficient(b, k - 1);
    if k in {0, 1, 2, 7} && Coefficient(b, 127) then !shifted else shifted
  }

  /** What is XORed into byte i after its shift: the top bit of the next byte, or the reduction of X^128. */
  function Carry(b: Block, i: nat): bv8
    requires i < 16
  {
    if i < 15 then b[i + 1] >> 7 else if b[0] >> 7 != 0 then 0x87 else 0
  }

  function ShiftIn(x: bv8, carry: bv8): bv8 {
    (x << 1) ^ carry
  }

  /** Bytes shifted left by one, each taking in the top bit of the next. */
  function Doubled(b: Block): Block {
    seq(16, i requires 0 <= i < 16 => ShiftIn(b[i], Carry(b, i)))
  }

  lemma ShiftedBit(x: bv8, next: bv8, j: nat)
    requires j < 8
    ensures HasBit(ShiftIn(x, next >> 7), j) <==> HasBit(if j == 0 then next else x, if j == 0 then 7 else j - 1)
  {
  }

  lemma WrappedBit(x: bv8, top: bv8, j: nat)
    requires j < 8
    ensures var shifted := j > 0 && HasBit(x, j - 1);
            HasBit(ShiftIn(x, if top >> 7 != 0 then 0x87 else 0), j)
            <==> if j in {0, 1, 2, 7} && HasBit(top, 7) then !shifted else shifted
  {
  }

  /** Doubled multiplies by X. */
  lemma DoubledIsTimesX(b: Block, k: nat)
    requires k < 128
    ensures Coefficient(Doubled(b), k) <==> TimesX(b, k)
  {
    hide ShiftIn, HasBit, Mask;
    var i, j := 15 - k / 8, k % 8;
    assert k > 0 ==> (k - 1) / 8 == (if j == 0 then k / 8 - 1 else k / 8) && (k - 1) % 8 == if j == 0 then 7 else j - 1;
    if i == 15 {
      WrappedBit(b[15], b[0], j);
    } else {
      ShiftedBit(b[i], b[i + 1], j);
    }
  }

  // ---- The CMAC of a message: section 2.4 of RFC 4493 ----

  /** The chain value after the first k bytes. */
  function Head(E: BlockFn, m: seq<bv8>, k: nat): Block
    requires k <= |m|
  {
    Chain(E, ZeroBlock(), Blocks16(m[..k]))
  }

  function Key1(E: BlockFn): Block {
    Doubled(E(ZeroBlock()))
  }

  function Key2(E: BlockFn): Block {
    Doubled(Key1(E))
  }

  /** A one bit, then zeros. */
  function PadOne(d: seq<bv8>): Block
    requires |d| < 16
  {
    seq(16, i requires 0 <= i < 16 => if i < |d| then d[i] else if i == |d| then 0x80 else 0)
  }

  /** The last block, complete or not, under the key that goes with it. */
  function LastBlock(E: BlockFn, d: seq<bv8>): Block
    requires |d| <= 16
  {
    if |d| == 16 then XorBlock(d, Key1(E)) else XorBlock(PadOne(d), Key2(E))
  }

  /** How many bytes make up the last block: 16 for whole blocks, none for the empty message. */
  function LastLength(n: nat): (r: nat)
    ensures r <= 16 && r <= n && (n - r) % 16 == 0 && (n > 0 ==> r > 0)
  {
    if n == 0 then 0 else (n - 1) % 16 + 1
  }

  function MacOf(E: BlockFn, m: seq<bv8>): Block {
    var k := |m| - LastLength(|m|);
    E(XorBlock(Head(E, m, k), LastBlock(E, m[k..])))
  }

  /** The subkeys: K1 is L times X and K2 is K1 times X, for L the block of zeros under the cipher. */
  lemma SubkeysAreMultiples(E: BlockFn, k: nat)
    requires k < 128
    ensures Coefficient(Key1(E), k) <==> TimesX(E([0, 0, 0, 0, 0, 0, 0, 0, 0, 0, 0, 0, 0, 0, 0, 0]), k)
    ensures Coefficient(Key2(E), k) <==> TimesX(Key1(E), k)
  {
    hide Doubled, TimesX, Coefficient;
    assert ZeroBlock() == [0, 0, 0, 0, 0, 0, 0, 0, 0, 0, 0, 0, 0, 0, 0, 0];
    DoubledIsTimesX(E(ZeroBlock()), k);
    DoubledIsTimesX(Key1(E), k);
  }

  /** The four lengths of the examples in section 4 of RFC 4493, written out for every cipher: nothing, one block, and
      40 and 64 bytes. */
  lemma MacByLength(E: BlockFn, m: seq<bv8>)
    ensures |m| == 0 ==>
              MacOf(E, m) == E(XorBlock([0x80, 0, 0, 0, 0, 0, 0, 0, 0, 0, 0, 0, 0, 0, 0, 0], Key2(E)))
    ensures |m| == 16 ==> MacOf(E, m) == E(XorBlock(m, Key1(E)))
    ensures |m| == 40 ==>
              MacOf(E, m) == E(XorBlock(E(XorBlock(E(m[..16]), m[16..32])),
                                        XorBlock(m[32..] + [0x80, 0, 0, 0, 0, 0, 0, 0], Key2(E))))
    ensures |m| == 64 ==>
              MacOf(E, m) == E(XorBlock(E(XorBlock(E(XorBlock(E(m[..16]), m[16..32])), m[32..48])),
                                        XorBlock(m[48..], Key1(E))))
  {
    hide Key1, Key2, XorBlock, Head, PadOne;
    MacParts(E, m);
    HeadStart(E, m);
    PadsWritten(m);
    if |m| == 0 {
      XorFromZero(XorBlock(PadOne(m[0..]), Key2(E)));
    } else if |m| == 16 {
      assert m[0..] == m;
      XorFromZero(XorBlock(m, Key1(E)));
    } else if |m| == 40 {
      HeadNext(E, m, 0);
      HeadNext(E, m, 16);
      XorFromZero(m[0..16]);
    } else if |m| == 64 {
      HeadNext(E, m, 0);
      HeadNext(E, m, 16);
      HeadNext(E, m, 32);
      XorFromZero(m[0..16]);
    }
  }

  lemma MacParts(E: BlockFn, m: seq<bv8>)
    ensures var k := |m| - LastLength(|m|);
            MacOf(E, m) == E(XorBlock(Head(E, m, k), if |m| - k == 16 then XorBlock(m[k..], Key1(E))
                                                     else XorBlock(PadOne(m[k..]), Key2(E))))
  {
    hide Key1, Key2, XorBlock, Head, PadOne, LastLength;
  }

  lemma HeadStart(E: BlockFn, m: seq<bv8>)
    ensures Head(E, m, 0) == ZeroBlock()
  {
    assert m[..0] == [];
  }

  lemma PadsWritten(m: seq<bv8>)
    ensures |m| == 0 ==> PadOne(m[0..]) == [0x80, 0, 0, 0, 0, 0, 0, 0, 0, 0, 0, 0, 0, 0, 0, 0]
    ensures |m| == 40 ==> PadOne(m[32..]) == m[32..] + [0x80, 0, 0, 0, 0, 0, 0, 0]
  {
  }

  // ---- What a chunked computation gives ----

  /** The last nonempty update starts inside a block and ends exactly where that block ends. */
  predicate EndsByFilling(updates: seq<seq<bv8>>) {
    if updates == [] then false
    else
      var before, last := updates[..|updates| - 1], updates[|updates| - 1];
      if last == [] then EndsByFilling(before)
      else |Flat(before)| % 16 != 0 && |last| == 16 - |Flat(before)| % 16
  }

  /** What is kept back for the end: after such an update, nothing. */
  function Kept(updates: seq<seq<bv8>>): (r: nat)
    ensures r <= 16 && r <= |Flat(updates)|
  {
    if EndsByFilling(updates) then 0 else LastLength(|Flat(updates)|)
  }

  lemma {:induction false} FilledIsWhole(updates: seq<seq<bv8>>)
    requires EndsByFilling(updates)
    ensures |Flat(updates)| > 0 && |Flat(updates)| % 16 == 0
  {
    var before, last := updates[..|updates| - 1], updates[|updates| - 1];
    assert updates == before + [last];
    FlatSnoc(before, last);
    if last == [] {
      FilledIsWhole(before);
    }
  }

  /** The tag that the chunked computation answers. */
  function StreamedTag(E: BlockFn, updates: seq<seq<bv8>>): Block {
    var m := Flat(updates);
    var k := |m| - Kept(updates);
    E(XorBlock(Head(E, m, k), LastBlock(E, m[k..])))
  }

  /** An update that completes its block from inside loses the last block: for the cipher that does
      nothing, the tag differs from the CMAC in its first byte. */
  lemma FilledDiffers(updates: seq<seq<bv8>>)
    requires EndsByFilling(updates)
    ensures StreamedTag(b => b, updates) != MacOf(b => b, Flat(updates))
  {
    hide *;
    var E: BlockFn := b => b;
    var m := Flat(updates);
    FilledIsWhole(updates);
    KeptCases(updates);
    LastOfWhole(|m|);
    var k: nat := |m| - 16;
    var d: Block := m[k..];
    HeadNext(E, m, k);
    assert m[k..k + 16] == d && m[|m|..] == [];
    KeysOfIdentity();
    StreamedWhole(E, updates);
    MacWhole(E, m);
    XorOfZero(d);
    XorOfZero(PadOne([]));
    var x := Head(E, m, k);
    XorFirst(x, d);
    XorFirst(XorBlock(x, d), PadOne([]));
    PadFirst();
    FirstByteDiffers(x[0] ^ d[0]);
  }

  lemma StreamedWhole(E: BlockFn, updates: seq<seq<bv8>>)
    requires EndsByFilling(updates)
    ensures StreamedTag(E, updates)
            == E(XorBlock(Head(E, Flat(updates), |Flat(updates)|), XorBlock(PadOne([]), Key2(E))))
  {
    hide PadOne, Key2, Head, XorBlock, Flat, EndsByFilling, LastLength, Key1;
    var m := Flat(updates);
    assert m[|m|..] == [];
  }

  lemma MacWhole(E: BlockFn, m: seq<bv8>)
    requires |m| > 0 && |m| % 16 == 0
    ensures MacOf(E, m) == E(XorBlock(Head(E, m, |m| - 16), XorBlock(m[|m| - 16..], Key1(E))))
  {
    hide Head, Key1, XorBlock;
    LastOfWhole(|m|);
  }

  lemma KeysOfIdentity()
    ensures Key1(b => b) == ZeroBlock() && Key2(b => b) == ZeroBlock()
  {
    hide Doubled;
    DoubledZero();
  }

  lemma XorOfZero(d: Block)
    ensures XorBlock(d, ZeroBlock()) == d
  {
    forall i | 0 <= i < 16
      ensures XorBlock(d, ZeroBlock())[i] == d[i]
    {
      XorZero(d[i]);
    }
  }

  lemma XorFirst(a: Block, b: Block)
    ensures XorBlock(a, b)[0] == a[0] ^ b[0]
  {
  }

  lemma PadFirst()
    ensures PadOne([])[0] == 0x80
  {
  }

  lemma FirstByteDiffers(a: bv8)
    ensures a ^ 0x80 != a
  {
  }

  /** The shortest such case: one byte, and then the other fifteen of its block. */
  lemma SixteenBytesInTwo(d: seq<bv8>)
    requires |d| == 16
    ensures Flat([d[..1], d[1..]]) == d
    ensures StreamedTag(b => b, [d[..1], d[1..]]) != MacOf(b => b, d)
  {
    var first, both := [d[..1]], [d[..1], d[1..]];
    assert Flat(first) == d[..1] + Flat([]) == d[..1];
    assert both == first + [d[1..]] && both[..1] == first;
    FlatSnoc(first, d[1..]);
    assert d[..1] + d[1..] == d;
    FilledDiffers(both);
  }

  lemma KeptCases(updates: seq<seq<bv8>>)
    ensures Kept(updates) == if EndsByFilling(updates) then 0 else LastLength(|Flat(updates)|)
  {
  }

  lemma LastOfWhole(n: nat)
    requires n > 0 && n % 16 == 0
    ensures LastLength(n) == 16
  {
  }

  lemma DoubledZero()
    ensures Doubled(ZeroBlock()) == ZeroBlock()
  {
    forall i | 0 <= i < 16
      ensures Doubled(ZeroBlock())[i] == 0
    {
    }
  }

  /** One more whole block of the chain. */
  lemma HeadNext(E: BlockFn, m: seq<bv8>, k: nat)
    requires k % 16 == 0 && k + 16 <= |m|
    ensures Head(E, m, k + 16) == E(XorBlock(Head(E, m, k), m[k..k + 16]))
  {
    var b: Block := m[k..k + 16];
    assert m[..k + 16] == m[..k] + b;
    BlocksAppend(m[..k], b);
    OneBlock(b);
    assert PadZero(b) == b;
    ChainAppend(E, ZeroBlock(), Blocks16(m[..k]), [b]);
    ChainOne(E, Head(E, m, k), b);
  }

  lemma HeadGrows(E: BlockFn, m: seq<bv8>, d: seq<bv8>, k: nat)
    requires k <= |m|
    ensures Head(E, m + d, k) == Head(E, m, k)
  {
    assert (m + d)[..k] == m[..k];
  }

  /** The chunked tag is the CMAC of the whole message under every block function, exactly unless the last
      nonempty update completes its block from inside. */
  lemma StreamingExact(updates: seq<seq<bv8>>)
    ensures (forall E: BlockFn :: StreamedTag(E, updates) == MacOf(E, Flat(updates))) <==> !EndsByFilling(updates)
  {
    if EndsByFilling(updates) {
      FilledDiffers(updates);
    }
  }

  /** A single update is never of that kind, whatever its length. */
  lemma OneUpdate(E: BlockFn, d: seq<bv8>)
    ensures StreamedTag(E, [d]) == MacOf(E, d)
  {
    assert Flat([d]) == d + Flat([]) == d;
    assert [d][..0] == [] && !EndsByFilling([d]);
  }
}
