/** CBC-MAC over blocks, and the byte-at-a-time form that CCM uses. */
module Cbc {
  import opened Blocks

  /** The chain T, E(T ^ b1), E(E(T ^ b1) ^ b2), ... */
  function Chain(E: BlockFn, t: Block, blocks: seq<Block>): Block
    decreases |blocks|
  {
    if blocks == [] then t else Chain(E, E(XorBlock(t, blocks[0])), blocks[1..])
  }

  /** A partial block filled up with zeros. */
  function PadZero(d: seq<bv8>): Block
    requires |d| <= 16
  {
    seq(16, i requires 0 <= i < 16 => if i < |d| then d[i] else 0)
  }

  /** A byte string cut into blocks, the last one zero-padded: section 2.2 of RFC 3610. */
  function Blocks16(d: seq<bv8>): (r: seq<Block>)
    ensures |r| == BlockCount(|d|)
  {
    if |d| == 0 then [] else if |d| <= 16 then [PadZero(d)] else [PadZero(d[..16])] + Blocks16(d[16..])
  }

  lemma {:induction false} ChainAppend(E: BlockFn, t: Block, a: seq<Block>, b: seq<Block>)
    ensures Chain(E, t, a + b) == Chain(E, Chain(E, t, a), b)
    decreases |a|
  {
    if a == [] {
      assert a + b == b;
    } else {
      assert (a + b)[1..] == a[1..] + b;
      ChainAppend(E, E(XorBlock(t, a[0])), a[1..], b);
    }
  }

  /** Whole blocks in front stay whole blocks. */
  lemma {:induction false} BlocksAppend(a: seq<bv8>, b: seq<bv8>)
    requires |a| % 16 == 0
    ensures Blocks16(a + b) == Blocks16(a) + Blocks16(b)
    decreases |a|
  {
    if |a| == 0 {
      assert a + b == b;
    } else if |b| == 0 {
      assert a + b == a;
    } else {
      assert (a + b)[..16] == a[..16] && (a + b)[16..] == a[16..] + b;
      BlocksAppend(a[16..], b);
      if |a| == 16 {
        assert a[..16] == a;
      }
    }
  }

  /** The first bytes of T replaced by their XOR with d: what the running block holds inside a block. */
  function XorPrefix(t: Block, d: seq<bv8>): Block
    requires |d| <= 16
  {
    seq(16, i requires 0 <= i < 16 => if i < |d| then t[i] ^ d[i] else t[i])
  }

  lemma XorPrefixPads(t: Block, d: seq<bv8>)
    requires |d| <= 16
    ensures XorPrefix(t, d) == XorBlock(t, PadZero(d))
  {
    forall i | 0 <= i < 16
      ensures XorPrefix(t, d)[i] == XorBlock(t, PadZero(d))[i]
    {
      if i >= |d| {
        XorZero(t[i]);
      }
    }
  }

  lemma XorZero(a: bv8)
    ensures a ^ 0 == a
  {
  }

  /** The running block after i bytes of the string s. */
  function Running(E: BlockFn, t: Block, s: seq<bv8>, i: nat): Block
    requires i <= |s|
  {
    XorPrefix(Chain(E, t, Blocks16(s[..16 * (i / 16)])), s[16 * (i / 16)..i])
  }

  lemma RunningStart(E: BlockFn, t: Block, s: seq<bv8>)
    ensures Running(E, t, s, 0) == t
  {
    assert s[..0] == [];
  }

  /** One more byte, not the last of its block. */
  lemma RunningByte(E: BlockFn, t: Block, s: seq<bv8>, i: nat)
    requires i < |s| && (i + 1) % 16 != 0
    ensures Running(E, t, s, i + 1) == Running(E, t, s, i)[i % 16 := Running(E, t, s, i)[i % 16] ^ s[i]]
  {
    hide Chain, Blocks16, XorPrefix;
    assert (i + 1) / 16 == i / 16;
    var k := 16 * (i / 16);
    assert s[k..i + 1] == s[k..i] + [s[i]];
    XorPrefixNext(Chain(E, t, Blocks16(s[..k])), s[k..i], s[i]);
  }

  lemma XorPrefixNext(t: Block, d: seq<bv8>, x: bv8)
    requires |d| < 16
    ensures XorPrefix(t, d + [x]) == XorPrefix(t, d)[|d| := XorPrefix(t, d)[|d|] ^ x]
  {
  }

  /** The byte that completes a block, or the string: then the block function is applied. */
  lemma RunningBlock(E: BlockFn, t: Block, s: seq<bv8>, i: nat)
    requires i < |s| && ((i + 1) % 16 == 0 || i + 1 == |s|)
    ensures var u := Running(E, t, s, i)[i % 16 := Running(E, t, s, i)[i % 16] ^ s[i]];
            E(u) == Chain(E, t, Blocks16(s[..i + 1]))
  {
    hide *;
    var k := 16 * (i / 16);
    var d := s[k..i + 1];
    var c := Chain(E, t, Blocks16(s[..k]));
    RunningLast(E, t, s, i);
    XorPrefixPads(c, d);
    assert s[..i + 1] == s[..k] + d;
    BlocksAppend(s[..k], d);
    OneBlock(d);
    ChainAppend(E, t, Blocks16(s[..k]), [PadZero(d)]);
    ChainOne(E, c, PadZero(d));
  }

  lemma RunningLast(E: BlockFn, t: Block, s: seq<bv8>, i: nat)
    requires i < |s|
    ensures var k := 16 * (i / 16);
            Running(E, t, s, i)[i % 16 := Running(E, t, s, i)[i % 16] ^ s[i]]
                == XorPrefix(Chain(E, t, Blocks16(s[..k])), s[k..i + 1])
  {
    hide Chain, Blocks16, XorPrefix;
    var k := 16 * (i / 16);
    assert s[k..i + 1] == s[k..i] + [s[i]];
    XorPrefixNext(Chain(E, t, Blocks16(s[..k])), s[k..i], s[i]);
  }

  lemma OneBlock(d: seq<bv8>)
    requires 0 < |d| <= 16
    ensures Blocks16(d) == [PadZero(d)]
  {
  }

  lemma ChainOne(E: BlockFn, t: Block, b: Block)
    ensures Chain(E, t, [b]) == E(XorBlock(t, b))
  {
    assert Chain(E, E(XorBlock(t, b)), []) == E(XorBlock(t, b));
  }

  /** At a block boundary the running block is the chain value. */
  lemma RunningBoundary(E: BlockFn, t: Block, s: seq<bv8>, i: nat)
    requires i <= |s| && i % 16 == 0
    ensures Running(E, t, s, i) == Chain(E, t, Blocks16(s[..i]))
  {
    assert 16 * (i / 16) == i;
  }
}
