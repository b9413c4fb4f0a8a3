/** Packet vector 1 of section 8 of RFC 3610, for every block function in place of the cipher. */
module CcmVector {
  import opened Blocks
  import opened Cbc
  import opened Ccm
  import opened Wrappers

  function VectorNonce(): Nonce {
    [0x00, 0x00, 0x00, 0x03, 0x02, 0x01, 0x00, 0xa0, 0xa1, 0xa2, 0xa3, 0xa4, 0xa5]
  }

  function VectorAad(): seq<bv8> {
    [0x00, 0x01, 0x02, 0x03, 0x04, 0x05, 0x06, 0x07]
  }

  function VectorPayload(): (p: seq<bv8>)
    ensures |p| == 23
  {
    [0x08, 0x09, 0x0a, 0x0b, 0x0c, 0x0d, 0x0e, 0x0f, 0x10, 0x11, 0x12, 0x13, 0x14, 0x15, 0x16, 0x17,
     0x18, 0x19, 0x1a, 0x1b, 0x1c, 0x1d, 0x1e]
  }

  /** Its tag for an 8-byte authentication field, over the four blocks that the vector lists. */
  lemma VectorMac(E: BlockFn)
    ensures Mac(E, VectorNonce(), 8, VectorAad(), VectorPayload())
            == E(XorBlock(E(XorBlock(E(XorBlock(
                 E([0x59, 0x00, 0x00, 0x00, 0x03, 0x02, 0x01, 0x00, 0xa0, 0xa1, 0xa2, 0xa3, 0xa4, 0xa5, 0x00, 0x17]),
                 [0x00, 0x08, 0x00, 0x01, 0x02, 0x03, 0x04, 0x05, 0x06, 0x07, 0x00, 0x00, 0x00, 0x00, 0x00, 0x00])),
                 [0x08, 0x09, 0x0a, 0x0b, 0x0c, 0x0d, 0x0e, 0x0f, 0x10, 0x11, 0x12, 0x13, 0x14, 0x15, 0x16, 0x17])),
                 [0x18, 0x19, 0x1a, 0x1b, 0x1c, 0x1d, 0x1e, 0x00, 0x00, 0x00, 0x00, 0x00, 0x00, 0x00, 0x00, 0x00]))
  {
    hide XorBlock, AuthFlags;
    VectorFormat();
    var b0: Block := [0x59, 0x00, 0x00, 0x00, 0x03, 0x02, 0x01, 0x00, 0xa0, 0xa1, 0xa2, 0xa3, 0xa4, 0xa5, 0x00, 0x17];
    var b1: Block := [0x00, 0x08, 0x00, 0x01, 0x02, 0x03, 0x04, 0x05, 0x06, 0x07, 0x00, 0x00, 0x00, 0x00, 0x00, 0x00];
    var b2: Block := [0x08, 0x09, 0x0a, 0x0b, 0x0c, 0x0d, 0x0e, 0x0f, 0x10, 0x11, 0x12, 0x13, 0x14, 0x15, 0x16, 0x17];
    var b3: Block := [0x18, 0x19, 0x1a, 0x1b, 0x1c, 0x1d, 0x1e, 0x00, 0x00, 0x00, 0x00, 0x00, 0x00, 0x00, 0x00, 0x00];
    assert Chain(E, ZeroBlock(), [b0, b1, b2, b3])
           == E(XorBlock(E(XorBlock(E(XorBlock(E(XorBlock(ZeroBlock(), b0)), b1)), b2)), b3)) by {
      FourBlocks(E, ZeroBlock(), b0, b1, b2, b3);
    }
    XorFromZero(b0);
    assert [b0] + [b1] + [b2, b3] == [b0, b1, b2, b3];
  }

  lemma FourBlocks(E: BlockFn, t: Block, a: Block, b: Block, c: Block, d: Block)
    ensures Chain(E, t, [a, b, c, d]) == E(XorBlock(E(XorBlock(E(XorBlock(E(XorBlock(t, a)), b)), c)), d))
  {
    hide XorBlock;
    var t1, t2 := E(XorBlock(t, a)), E(XorBlock(E(XorBlock(t, a)), b));
    assert [a, b, c, d] == [a] + [b, c, d] && [b, c, d] == [b] + [c, d] && [c, d] == [c] + [d];
    ChainAppend(E, t, [a], [b, c, d]);
    ChainOne(E, t, a);
    ChainAppend(E, t1, [b], [c, d]);
    ChainOne(E, t1, b);
    ChainAppend(E, t2, [c], [d]);
    ChainOne(E, t2, c);
    ChainOne(E, E(XorBlock(t2, c)), d);
  }

  lemma VectorFormat()
    ensures FirstBlock(VectorNonce(), 8, true, 23)
            == [0x59, 0x00, 0x00, 0x00, 0x03, 0x02, 0x01, 0x00, 0xa0, 0xa1, 0xa2, 0xa3, 0xa4, 0xa5, 0x00, 0x17]
    ensures Blocks16(EncodedAad(VectorAad()))
            == [[0x00, 0x08, 0x00, 0x01, 0x02, 0x03, 0x04, 0x05, 0x06, 0x07, 0x00, 0x00, 0x00, 0x00, 0x00, 0x00]]
    ensures Blocks16(VectorPayload())
            == [[0x08, 0x09, 0x0a, 0x0b, 0x0c, 0x0d, 0x0e, 0x0f, 0x10, 0x11, 0x12, 0x13, 0x14, 0x15, 0x16, 0x17],
                [0x18, 0x19, 0x1a, 0x1b, 0x1c, 0x1d, 0x1e, 0x00, 0x00, 0x00, 0x00, 0x00, 0x00, 0x00, 0x00, 0x00]]
  {
    VectorBytes();
    hide TwoBytes, AuthFlags;
    var a, p := EncodedAad(VectorAad()), VectorPayload();
    assert a == [0x00, 0x08] + VectorAad() && Blocks16(a) == [PadZero(a)];
    assert PadZero(a)
           == [0x00, 0x08, 0x00, 0x01, 0x02, 0x03, 0x04, 0x05, 0x06, 0x07, 0x00, 0x00, 0x00, 0x00, 0x00, 0x00];
    assert Blocks16(p) == [PadZero(p[..16])] + Blocks16(p[16..]) && Blocks16(p[16..]) == [PadZero(p[16..])];
    assert PadZero(p[..16])
           == [0x08, 0x09, 0x0a, 0x0b, 0x0c, 0x0d, 0x0e, 0x0f, 0x10, 0x11, 0x12, 0x13, 0x14, 0x15, 0x16, 0x17];
    assert PadZero(p[16..])
           == [0x18, 0x19, 0x1a, 0x1b, 0x1c, 0x1d, 0x1e, 0x00, 0x00, 0x00, 0x00, 0x00, 0x00, 0x00, 0x00, 0x00];
  }

  lemma VectorBytes()
    ensures TwoBytes(23) == [0x00, 0x17] && TwoBytes(8) == [0x00, 0x08] && AuthFlags(true, 8) == 0x59
    ensures TwoBytes(0) == [0x00, 0x00] && TwoBytes(1) == [0x00, 0x01] && TwoBytes(2) == [0x00, 0x02]
  {
  }

  lemma VectorCounters()
    ensures CounterBlock(VectorNonce(), 0)
            == [0x01, 0x00, 0x00, 0x00, 0x03, 0x02, 0x01, 0x00, 0xa0, 0xa1, 0xa2, 0xa3, 0xa4, 0xa5, 0x00, 0x00]
    ensures CounterBlock(VectorNonce(), 1)
            == [0x01, 0x00, 0x00, 0x00, 0x03, 0x02, 0x01, 0x00, 0xa0, 0xa1, 0xa2, 0xa3, 0xa4, 0xa5, 0x00, 0x01]
    ensures CounterBlock(VectorNonce(), 2)
            == [0x01, 0x00, 0x00, 0x00, 0x03, 0x02, 0x01, 0x00, 0xa0, 0xa1, 0xa2, 0xa3, 0xa4, 0xa5, 0x00, 0x02]
  {
    VectorBytes();
    hide TwoBytes;
  }

  /** The sealed packet: the key stream blocks are the cipher of A_1 and A_2, and A_0 masks the tag. */
  lemma VectorSealed(E: BlockFn)
    ensures var p, t := VectorPayload(), Mac(E, VectorNonce(), 8, VectorAad(), VectorPayload());
            var s0: Block := E(
                  [0x01, 0x00, 0x00, 0x00, 0x03, 0x02, 0x01, 0x00, 0xa0, 0xa1, 0xa2, 0xa3, 0xa4, 0xa5, 0x00, 0x00]);
            var s1: Block := E(
                  [0x01, 0x00, 0x00, 0x00, 0x03, 0x02, 0x01, 0x00, 0xa0, 0xa1, 0xa2, 0xa3, 0xa4, 0xa5, 0x00, 0x01]);
            var s2: Block := E(
                  [0x01, 0x00, 0x00, 0x00, 0x03, 0x02, 0x01, 0x00, 0xa0, 0xa1, 0xa2, 0xa3, 0xa4, 0xa5, 0x00, 0x02]);
            var sealed := Seal(E, VectorNonce(), 8, VectorAad(), p);
            && sealed.Some? && |sealed.value| == 31
            && (forall i :: 0 <= i < 16 ==> sealed.value[i] == s1[i] ^ p[i])
            && (forall i :: 0 <= i < 7 ==> sealed.value[16 + i] == s2[i] ^ p[16 + i])
            && (forall i :: 0 <= i < 8 ==> sealed.value[23 + i] == t[i] ^ s0[i])
  {
    hide Mac, CounterBlock, VectorNonce;
    VectorCounters();
  }
}
