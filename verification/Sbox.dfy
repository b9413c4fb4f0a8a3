/** The S-box of AES and its inverse: one 128-bit literal for each row of the tables. */
module Sbox {
  import opened Gf256

  /** The byte at place lo of a row. */
  function Pick(row: bv128, lo: bv8): bv8
    requires lo < 16
  {
    ((row >> (0x78 - (lo << 3))) & 0xFF) as bv8
  }

  /** sbox[x]. */
  function SubByte(x: bv8): bv8 {
    var lo := x & 0x0F;
    match x >> 4
    case 0 => Pick(0x637c777bf26b6fc53001672bfed7ab76, lo)
    case 1 => Pick(0xca82c97dfa5947f0add4a2af9ca472c0, lo)
    case 2 => Pick(0xb7fd9326363ff7cc34a5e5f171d83115, lo)
    case 3 => Pick(0x04c723c31896059a071280e2eb27b275, lo)
    case 4 => Pick(0x09832c1a1b6e5aa0523bd6b329e32f84, lo)
    case 5 => Pick(0x53d100ed20fcb15b6acbbe394a4c58cf, lo)
    case 6 => Pick(0xd0efaafb434d338545f9027f503c9fa8, lo)
    case 7 => Pick(0x51a3408f929d38f5bcb6da2110fff3d2, lo)
    case 8 => Pick(0xcd0c13ec5f974417c4a77e3d645d1973, lo)
    case 9 => Pick(0x60814fdc222a908846eeb814de5e0bdb, lo)
    case 10 => Pick(0xe0323a0a4906245cc2d3ac629195e479, lo)
    case 11 => Pick(0xe7c8376d8dd54ea96c56f4ea657aae08, lo)
    case 12 => Pick(0xba78252e1ca6b4c6e8dd741f4bbd8b8a, lo)
    case 13 => Pick(0x703eb5664803f60e613557b986c11d9e, lo)
    case 14 => Pick(0xe1f8981169d98e949b1e87e9ce5528df, lo)
    case _ => Pick(0x8ca1890dbfe6426841992d0fb054bb16, lo)
  }

  /** inv_sbox[x]. */
  function InvSubByte(x: bv8): bv8 {
    var lo := x & 0x0F;
    match x >> 4
    case 0 => Pick(0x52096ad53036a538bf40a39e81f3d7fb, lo)
    case 1 => Pick(0x7ce339829b2fff87348e4344c4dee9cb, lo)
    case 2 => Pick(0x547b9432a6c2233dee4c950b42fac34e, lo)
    case 3 => Pick(0x082ea16628d924b2765ba2496d8bd125, lo)
    case 4 => Pick(0x72f8f66486689816d4a45ccc5d65b692, lo)
    case 5 => Pick(0x6c704850fdedb9da5e154657a78d9d84, lo)
    case 6 => Pick(0x90d8ab008cbcd30af7e45805b8b34506, lo)
    case 7 => Pick(0xd02c1e8fca3f0f02c1afbd0301138a6b, lo)
    case 8 => Pick(0x3a9111414f67dcea97f2cfcef0b4e673, lo)
    case 9 => Pick(0x96ac7422e7ad3585e2f937e81c75df6e, lo)
    case 10 => Pick(0x47f11a711d29c5896fb7620eaa18be1b, lo)
    case 11 => Pick(0xfc563e4bc6d279209adbc0fe78cd5af4, lo)
    case 12 => Pick(0x1fdda8338807c731b11210592780ec5f, lo)
    case 13 => Pick(0x60517fa919b54a0d2de57a9f93c99cef, lo)
    case 14 => Pick(0xa0e03b4dae2af5b0c8ebbb3c83539961, lo)
    case _ => Pick(0x172b047eba77d626e169146355210c7d, lo)
  }

  lemma InvSub0(x: bv8)
    requires x >> 6 == 0
    ensures InvSubByte(SubByte(x)) == x
  {
  }

  lemma InvSub1(x: bv8)
    requires x >> 6 == 1
    ensures InvSubByte(SubByte(x)) == x
  {
  }

  lemma InvSub2(x: bv8)
    requires x >> 6 == 2
    ensures InvSubByte(SubByte(x)) == x
  {
  }

  lemma InvSub3(x: bv8)
    requires x >> 6 == 3
    ensures InvSubByte(SubByte(x)) == x
  {
  }

  lemma LastQuarter(x: bv8)
    requires x >> 6 != 0 && x >> 6 != 1 && x >> 6 != 2
    ensures x >> 6 == 3
  {
  }

  lemma InvSubSub(x: bv8)
    ensures InvSubByte(SubByte(x)) == x
  {
    hide SubByte, InvSubByte;
    if x >> 6 == 0 {
      InvSub0(x);
    } else if x >> 6 == 1 {
      InvSub1(x);
    } else if x >> 6 == 2 {
      InvSub2(x);
    } else {
      LastQuarter(x);
      InvSub3(x);
    }
  }

  lemma SubInv0(x: bv8)
    requires x >> 6 == 0
    ensures SubByte(InvSubByte(x)) == x
  {
  }

  lemma SubInv1(x: bv8)
    requires x >> 6 == 1
    ensures SubByte(InvSubByte(x)) == x
  {
  }

  lemma SubInv2(x: bv8)
    requires x >> 6 == 2
    ensures SubByte(InvSubByte(x)) == x
  {
  }

  lemma SubInv3(x: bv8)
    requires x >> 6 == 3
    ensures SubByte(InvSubByte(x)) == x
  {
  }

  lemma SubInvSub(x: bv8)
    ensures SubByte(InvSubByte(x)) == x
  {
    hide SubByte, InvSubByte;
    if x >> 6 == 0 {
      SubInv0(x);
    } else if x >> 6 == 1 {
      SubInv1(x);
    } else if x >> 6 == 2 {
      SubInv2(x);
    } else {
      LastQuarter(x);
      SubInv3(x);
    }
  }

  // ---- Where the table comes from: section 5.1.1 of FIPS 197 ----

  function Rotl(b: bv8, n: nat): bv8
    requires 0 < n < 8
  {
    (b << n) | (b >> (8 - n))
  }

  /** The affine transformation: each bit is the XOR of five bits and of the constant 0x63. */
  function Affine(b: bv8): bv8 {
    b ^ Rotl(b, 1) ^ Rotl(b, 2) ^ Rotl(b, 3) ^ Rotl(b, 4) ^ 0x63
  }

  function InvAffine(b: bv8): bv8 {
    Rotl(b, 1) ^ Rotl(b, 3) ^ Rotl(b, 6) ^ 0x05
  }

  lemma AffineInverts(b: bv8)
    ensures Affine(InvAffine(b)) == b
  {
  }

  lemma Inverse0(x: bv8)
    requires x >> 6 == 0
    ensures GfMul(x, InvAffine(SubByte(x))) == if x == 0 then 0 else 1
  {
  }

  lemma Inverse1(x: bv8)
    requires x >> 6 == 1
    ensures GfMul(x, InvAffine(SubByte(x))) == if x == 0 then 0 else 1
  {
  }

  lemma Inverse2(x: bv8)
    requires x >> 6 == 2
    ensures GfMul(x, InvAffine(SubByte(x))) == if x == 0 then 0 else 1
  {
  }

  lemma Inverse3(x: bv8)
    requires x >> 6 == 3
    ensures GfMul(x, InvAffine(SubByte(x))) == if x == 0 then 0 else 1
  {
  }

  /** The S-box is the affine transformation of the inverse in GF(2^8), with zero as its own inverse. */
  lemma SubByteMeaning(x: bv8)
    ensures exists y: bv8 :: SubByte(x) == Affine(y) && (if x == 0 then y == 0 else GfMul(x, y) == 1)
  {
    var y := InvAffine(SubByte(x));
    AffineInverts(SubByte(x));
    InverseIs(x);
    ZeroMapped();
    hide *;
    assert SubByte(x) == Affine(y);
  }

  lemma ZeroMapped()
    ensures InvAffine(SubByte(0)) == 0
  {
  }

  lemma InverseIs(x: bv8)
    ensures GfMul(x, InvAffine(SubByte(x))) == if x == 0 then 0 else 1
  {
    hide SubByte, InvAffine, GfMul;
    if x >> 6 == 0 {
      Inverse0(x);
    } else if x >> 6 == 1 {
      Inverse1(x);
    } else if x >> 6 == 2 {
      Inverse2(x);
    } else {
      LastQuarter(x);
      Inverse3(x);
    }
  }
}
