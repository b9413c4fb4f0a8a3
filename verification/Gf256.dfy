/** The field GF(2^8) of AES: section 4 of FIPS 197. */
module Gf256 {

  /** _double_byte: multiplication by X. */
  function DoubleByte(a: bv8): bv8 {
    (a << 1) ^ ((a >> 7) * 0x1b)
  }

  /** Addition in the field. */
  function GfAdd(a: bv8, b: bv8): bv8 {
    a ^ b
  }

  function Sum4(a: bv8, b: bv8, c: bv8, d: bv8): bv8 {
    a ^ b ^ c ^ d
  }

  function Sum8(a: bv8, b: bv8, c: bv8, d: bv8, e: bv8, f: bv8, g: bv8, h: bv8): bv8 {
    GfAdd(Sum4(a, b, c, d), Sum4(e, f, g, h))
  }

  /** The product of two polynomials modulo X^8 + X^4 + X^3 + X + 1: for every X^k in b, a times X^k. */
  function GfMul(a: bv8, b: bv8): bv8 {
    var a1 := DoubleByte(a);
    var a2 := DoubleByte(a1);
    var a3 := DoubleByte(a2);
    var a4 := DoubleByte(a3);
    var a5 := DoubleByte(a4);
    var a6 := DoubleByte(a5);
    var a7 := DoubleByte(a6);
    Sum8(Term(b, 0x01, a), Term(b, 0x02, a1), Term(b, 0x04, a2), Term(b, 0x08, a3),
         Term(b, 0x10, a4), Term(b, 0x20, a5), Term(b, 0x40, a6), Term(b, 0x80, a7))
  }

  function Term(b: bv8, bit: bv8, a: bv8): bv8 {
    if b & bit != 0 then a else 0
  }

  /** Doubling drops the bit at X^7 and adds X^4 + X^3 + X + 1 for it. */
  lemma DoubleByteReduces(a: bv8)
    ensures DoubleByte(a) == if a & 0x80 != 0 then (a << 1) ^ 0x1b else a << 1
  {
  }

  lemma DoubleByteLinear(a: bv8, b: bv8)
    ensures DoubleByte(GfAdd(a, b)) == GfAdd(DoubleByte(a), DoubleByte(b))
  {
    calc {
      DoubleByte(GfAdd(a, b));
      DoubleByte(a ^ b);
      ((a ^ b) << 1) ^ (((a ^ b) >> 7) * 0x1b);
      ((a << 1) ^ ((a >> 7) * 0x1b)) ^ ((b << 1) ^ ((b >> 7) * 0x1b));
      DoubleByte(a) ^ DoubleByte(b);
      GfAdd(DoubleByte(a), DoubleByte(b));
    }
  }

  lemma TermLinear(b: bv8, bit: bv8, x: bv8, y: bv8)
    ensures Term(b, bit, GfAdd(x, y)) == GfAdd(Term(b, bit, x), Term(b, bit, y))
  {
  }

  lemma RawPairs(a: bv8, b: bv8, c: bv8, d: bv8, a': bv8, b': bv8, c': bv8, d': bv8)
    ensures (a ^ a') ^ (b ^ b') ^ (c ^ c') ^ (d ^ d') == (a ^ b ^ c ^ d) ^ (a' ^ b' ^ c' ^ d')
  {
  }

  lemma Sum4Pairs(a: bv8, b: bv8, c: bv8, d: bv8, a': bv8, b': bv8, c': bv8, d': bv8)
    ensures Sum4(GfAdd(a, a'), GfAdd(b, b'), GfAdd(c, c'), GfAdd(d, d'))
            == GfAdd(Sum4(a, b, c, d), Sum4(a', b', c', d'))
  {
    calc {
      Sum4(GfAdd(a, a'), GfAdd(b, b'), GfAdd(c, c'), GfAdd(d, d'));
      Sum4(a ^ a', b ^ b', c ^ c', d ^ d');
      (a ^ a') ^ (b ^ b') ^ (c ^ c') ^ (d ^ d');
      { RawPairs(a, b, c, d, a', b', c', d'); }
      (a ^ b ^ c ^ d) ^ (a' ^ b' ^ c' ^ d');
      GfAdd(a ^ b ^ c ^ d, a' ^ b' ^ c' ^ d');
      GfAdd(Sum4(a, b, c, d), Sum4(a', b', c', d'));
    }
  }

  lemma Swap(a: bv8, b: bv8, c: bv8, d: bv8)
    ensures GfAdd(GfAdd(a, b), GfAdd(c, d)) == GfAdd(GfAdd(a, c), GfAdd(b, d))
  {
    calc {
      GfAdd(GfAdd(a, b), GfAdd(c, d));
      GfAdd(a ^ b, c ^ d);
      (a ^ b) ^ (c ^ d);
      (a ^ c) ^ (b ^ d);
      GfAdd(a ^ c, b ^ d);
      GfAdd(GfAdd(a, c), GfAdd(b, d));
    }
  }

  lemma SumPairs(a: bv8, b: bv8, c: bv8, d: bv8, e: bv8, f: bv8, g: bv8, h: bv8,
          a': bv8, b': bv8, c': bv8, d': bv8, e': bv8, f': bv8, g': bv8, h': bv8)
    ensures Sum8(GfAdd(a, a'), GfAdd(b, b'), GfAdd(c, c'), GfAdd(d, d'), GfAdd(e, e'), GfAdd(f, f'), GfAdd(g, g'),
                 GfAdd(h, h'))
            == GfAdd(Sum8(a, b, c, d, e, f, g, h), Sum8(a', b', c', d', e', f', g', h'))
  {
    hide GfAdd, Sum4;
    Sum4Pairs(a, b, c, d, a', b', c', d');
    Sum4Pairs(e, f, g, h, e', f', g', h');
    Swap(Sum4(a, b, c, d), Sum4(a', b', c', d'), Sum4(e, f, g, h), Sum4(e', f', g', h'));
  }

  /** Multiplication distributes over addition. */
  lemma GfMulLinear(x: bv8, y: bv8, k: bv8)
    ensures GfMul(GfAdd(x, y), k) == GfAdd(GfMul(x, k), GfMul(y, k))
  {
    hide DoubleByte, Term, GfAdd, Sum8;
    var x1, y1 := DoubleByte(x), DoubleByte(y);
    var x2, y2 := DoubleByte(x1), DoubleByte(y1);
    var x3, y3 := DoubleByte(x2), DoubleByte(y2);
    var x4, y4 := DoubleByte(x3), DoubleByte(y3);
    var x5, y5 := DoubleByte(x4), DoubleByte(y4);
    var x6, y6 := DoubleByte(x5), DoubleByte(y5);
    var x7, y7 := DoubleByte(x6), DoubleByte(y6);
    DoubleByteLinear(x, y);
    DoubleByteLinear(x1, y1);
    DoubleByteLinear(x2, y2);
    DoubleByteLinear(x3, y3);
    DoubleByteLinear(x4, y4);
    DoubleByteLinear(x5, y5);
    DoubleByteLinear(x6, y6);
    TermLinear(k, 0x01, x, y);
    TermLinear(k, 0x02, x1, y1);
    TermLinear(k, 0x04, x2, y2);
    TermLinear(k, 0x08, x3, y3);
    TermLinear(k, 0x10, x4, y4);
    TermLinear(k, 0x20, x5, y5);
    TermLinear(k, 0x40, x6, y6);
    TermLinear(k, 0x80, x7, y7);
    SumPairs(Term(k, 0x01, x), Term(k, 0x02, x1), Term(k, 0x04, x2), Term(k, 0x08, x3),
             Term(k, 0x10, x4), Term(k, 0x20, x5), Term(k, 0x40, x6), Term(k, 0x80, x7),
             Term(k, 0x01, y), Term(k, 0x02, y1), Term(k, 0x04, y2), Term(k, 0x08, y3),
             Term(k, 0x10, y4), Term(k, 0x20, y5), Term(k, 0x40, y6), Term(k, 0x80, y7));
  }

  lemma Sum4Adds(a: bv8, b: bv8, c: bv8, d: bv8)
    ensures Sum4(a, b, c, d) == GfAdd(GfAdd(GfAdd(a, b), c), d)
  {
    calc {
      GfAdd(GfAdd(GfAdd(a, b), c), d);
      GfAdd(GfAdd(a ^ b, c), d);
      GfAdd(a ^ b ^ c, d);
      a ^ b ^ c ^ d;
    }
  }

  lemma GfMulLinear4(x: bv8, y: bv8, z: bv8, u: bv8, k: bv8)
    ensures GfMul(Sum4(x, y, z, u), k) == Sum4(GfMul(x, k), GfMul(y, k), GfMul(z, k), GfMul(u, k))
  {
    hide GfMul, GfAdd, Sum4;
    Sum4Adds(x, y, z, u);
    Sum4Adds(GfMul(x, k), GfMul(y, k), GfMul(z, k), GfMul(u, k));
    GfMulLinear(GfAdd(GfAdd(x, y), z), u, k);
    GfMulLinear(GfAdd(x, y), z, k);
    GfMulLinear(x, y, k);
  }

  lemma RawTranspose(a1: bv8, a2: bv8, a3: bv8, a4: bv8, b1: bv8, b2: bv8, b3: bv8, b4: bv8,
          c1: bv8, c2: bv8, c3: bv8, c4: bv8, d1: bv8, d2: bv8, d3: bv8, d4: bv8)
    ensures (a1 ^ b1 ^ c1 ^ d1) ^ (b2 ^ c2 ^ d2 ^ a2) ^ (c3 ^ d3 ^ a3 ^ b3) ^ (d4 ^ a4 ^ b4 ^ c4)
            == (a1 ^ a2 ^ a3 ^ a4) ^ (b1 ^ b2 ^ b3 ^ b4) ^ (c1 ^ c2 ^ c3 ^ c4) ^ (d1 ^ d2 ^ d3 ^ d4)
  {
  }

  /** A sum of sums, taken the other way round. */
  lemma Transpose(a1: bv8, a2: bv8, a3: bv8, a4: bv8, b1: bv8, b2: bv8, b3: bv8, b4: bv8,
          c1: bv8, c2: bv8, c3: bv8, c4: bv8, d1: bv8, d2: bv8, d3: bv8, d4: bv8)
    ensures Sum4(Sum4(a1, b1, c1, d1), Sum4(b2, c2, d2, a2), Sum4(c3, d3, a3, b3), Sum4(d4, a4, b4, c4))
            == Sum4(Sum4(a1, a2, a3, a4), Sum4(b1, b2, b3, b4), Sum4(c1, c2, c3, c4), Sum4(d1, d2, d3, d4))
  {
    calc {
      Sum4(Sum4(a1, b1, c1, d1), Sum4(b2, c2, d2, a2), Sum4(c3, d3, a3, b3), Sum4(d4, a4, b4, c4));
      Sum4(a1 ^ b1 ^ c1 ^ d1, b2 ^ c2 ^ d2 ^ a2, c3 ^ d3 ^ a3 ^ b3, d4 ^ a4 ^ b4 ^ c4);
      (a1 ^ b1 ^ c1 ^ d1) ^ (b2 ^ c2 ^ d2 ^ a2) ^ (c3 ^ d3 ^ a3 ^ b3) ^ (d4 ^ a4 ^ b4 ^ c4);
      { RawTranspose(a1, a2, a3, a4, b1, b2, b3, b4, c1, c2, c3, c4, d1, d2, d3, d4); }
      (a1 ^ a2 ^ a3 ^ a4) ^ (b1 ^ b2 ^ b3 ^ b4) ^ (c1 ^ c2 ^ c3 ^ c4) ^ (d1 ^ d2 ^ d3 ^ d4);
      Sum4(a1 ^ a2 ^ a3 ^ a4, b1 ^ b2 ^ b3 ^ b4, c1 ^ c2 ^ c3 ^ c4, d1 ^ d2 ^ d3 ^ d4);
      Sum4(Sum4(a1, a2, a3, a4), Sum4(b1, b2, b3, b4), Sum4(c1, c2, c3, c4), Sum4(d1, d2, d3, d4));
    }
  }
}
