/** The field prime of P-256 and the fast reduction of a 16-word product modulo it. */
module P256 {
  import opened Words
  import opened Arith
  import opened Bits
  import opened Vli

  function PWord(i: nat): Word {
    if i < 3 then 0xFFFFFFFF else if i < 6 then 0 else if i == 6 then 1 else 0xFFFFFFFF
  }

  /** The words of curve->p. */
  function PWords(): (s: seq<Word>)
    ensures |s| == 8
  {
    seq(8, i requires 0 <= i < 8 => PWord(i))
  }

  /** The value of s, with one step for each word of steps. */
  function ValueAfter(steps: seq<Word>, s: seq<Word>): nat
    decreases |steps|
  {
    if steps == [] then Val(s) else ValueAfter(steps[1..], s)
  }

  lemma {:induction false} AfterSteps(steps: seq<Word>, s: seq<Word>)
    ensures ValueAfter(steps, s) == Val(s)
    decreases |steps|
  {
    if steps != [] {
      AfterSteps(steps[1..], s);
    }
  }

  /** The prime as the number that its words stand for. The steps keep that number out of proofs that do not ask
      for it with PValue: they are about any odd P, and quicker for it. */
  function PrimeNumber(): (p: nat)
    ensures p > 3 && p % 2 == 1
  {
    var s := seq(8, i requires 0 <= i < 8 => PWord(i));
    assert s == PWords();
    PNumber();
    AfterSteps(s, s);
    ValueAfter(s, s)
  }

  const P: nat := PrimeNumber()

  /** 2^256 - 2^224 + 2^192 + 2^96 - 1. */
  lemma PNumber()
    ensures Val(PWords()) == 0xFFFFFFFF_00000001_00000000_00000000_00000000_FFFFFFFF_FFFFFFFF_FFFFFFFF
  {
    Val8(PWords());
  }

  lemma PValue()
    ensures Val(PWords()) == P == 0xFFFFFFFF_00000001_00000000_00000000_00000000_FFFFFFFF_FFFFFFFF_FFFFFFFF
  {
    PNumber();
    var s := seq(8, i requires 0 <= i < 8 => PWord(i));
    assert s == PWords();
    AfterSteps(s, s);
  }

  function BWord(i: nat): Word {
    if i == 0 then 0x27D2604B else if i == 1 then 0x3BCE3C3E else if i == 2 then 0xCC53B0F6
    else if i == 3 then 0x651D06B0 else if i == 4 then 0x769886BC else if i == 5 then 0xB3EBBD55
    else if i == 6 then 0xAA3A93E7 else 0x5AC635D8
  }

  /** The words of curve->b. */
  function BWords(): (s: seq<Word>)
    ensures |s| == 8
  {
    seq(8, i requires 0 <= i < 8 => BWord(i))
  }

  function Coefficient(): nat {
    var s := seq(8, i requires 0 <= i < 8 => BWord(i));
    ValueAfter(s, s)
  }

  /** The curve coefficient b, in the same way. */
  const B: nat := Coefficient()

  lemma BValue()
    ensures Val(BWords()) == B == 0x5AC635D8_AA3A93E7_B3EBBD55_769886BC_651D06B0_CC53B0F6_3BCE3C3E_27D2604B
  {
    var s := seq(8, i requires 0 <= i < 8 => BWord(i));
    assert s == BWords();
    AfterSteps(s, s);
    Val8(BWords());
  }

  /** The constant curve->p; every caller reads its own copy. */
  method CurveP() returns (p: array<Word>)
    ensures fresh(p) && p.Length == 8 && p[..] == PWords()
  {
    p := new Word[8] [0xFFFFFFFF, 0xFFFFFFFF, 0xFFFFFFFF, 0, 0, 0, 1, 0xFFFFFFFF];
  }

  lemma Pow8()
    ensures Pow(8) == 0x1_00000000_00000000_00000000_00000000_00000000_00000000_00000000_00000000
  {
    assert Pow(1) == 0x1_00000000 * Pow(0);
    assert Pow(2) == 0x1_00000000 * Pow(1);
    assert Pow(3) == 0x1_00000000 * Pow(2);
    assert Pow(4) == 0x1_00000000 * Pow(3);
    assert Pow(5) == 0x1_00000000 * Pow(4);
    assert Pow(6) == 0x1_00000000 * Pow(5);
    assert Pow(7) == 0x1_00000000 * Pow(6);
  }

  function Quad(a: int, b: int, c: int, d: int): int {
    a + 0x1_00000000 * b + 0x1_00000000_00000000 * c + 0x1_00000000_00000000_00000000 * d
  }

  function Octet(a: int, b: int, c: int, d: int, e: int, f: int, g: int, h: int): int {
    Quad(a, b, c, d) + 0x1_00000000_00000000_00000000_00000000 * Quad(e, f, g, h)
  }

  lemma Val4(s: seq<Word>)
    requires |s| == 4
    ensures Val(s) == Quad(s[0], s[1], s[2], s[3])
  {
    ValFirst(s);
    ValFirst(s[1..]);
    ValFirst(s[1..][1..]);
    ValFirst(s[1..][1..][1..]);
    ValNone(s[1..][1..][1..][1..]);
  }

  /** Eight words written out. */
  lemma Val8(s: seq<Word>)
    requires |s| == 8
    ensures Val(s) == Octet(s[0], s[1], s[2], s[3], s[4], s[5], s[6], s[7])
  {
    hide Val, Pow, Quad;
    ValSplit(s, 4);
    Val4(s[..4]);
    Val4(s[4..]);
    Pow4();
  }

  lemma Pow4()
    ensures Pow(4) == 0x1_00000000_00000000_00000000_00000000
  {
    assert Pow(1) == 0x1_00000000 * Pow(0);
    assert Pow(2) == 0x1_00000000 * Pow(1);
    assert Pow(3) == 0x1_00000000 * Pow(2);
  }

  // The rows of appendix D.2.3 of FIPS 186-4, for a product of 16 words c.
  function T(c: seq<Word>): (s: seq<Word>) requires |c| == 16 ensures |s| == 8 { c[..8] }
  function S1(c: seq<Word>): (s: seq<Word>) requires |c| == 16 ensures |s| == 8 {
    [0, 0, 0, c[11], c[12], c[13], c[14], c[15]]
  }
  function S2(c: seq<Word>): (s: seq<Word>) requires |c| == 16 ensures |s| == 8 {
    [0, 0, 0, c[12], c[13], c[14], c[15], 0]
  }
  function S3(c: seq<Word>): (s: seq<Word>) requires |c| == 16 ensures |s| == 8 {
    [c[8], c[9], c[10], 0, 0, 0, c[14], c[15]]
  }
  function S4(c: seq<Word>): (s: seq<Word>) requires |c| == 16 ensures |s| == 8 {
    [c[9], c[10], c[11], c[13], c[14], c[15], c[13], c[8]]
  }
  function D1(c: seq<Word>): (s: seq<Word>) requires |c| == 16 ensures |s| == 8 {
    [c[11], c[12], c[13], 0, 0, 0, c[8], c[10]]
  }
  function D2(c: seq<Word>): (s: seq<Word>) requires |c| == 16 ensures |s| == 8 {
    [c[12], c[13], c[14], c[15], 0, 0, c[9], c[11]]
  }
  function D3(c: seq<Word>): (s: seq<Word>) requires |c| == 16 ensures |s| == 8 {
    [c[13], c[14], c[15], c[8], c[9], c[10], 0, c[12]]
  }
  function D4(c: seq<Word>): (s: seq<Word>) requires |c| == 16 ensures |s| == 8 {
    [c[14], c[15], 0, c[9], c[10], c[11], 0, c[13]]
  }

  /** T + 2 S1 + 2 S2 + S3 + S4 - D1 - D2 - D3 - D4. */
  function RowSum(c: seq<Word>): int
    requires |c| == 16
  {
    Val(T(c)) + 2 * Val(S1(c)) + 2 * Val(S2(c)) + Val(S3(c)) + Val(S4(c))
    - Val(D1(c)) - Val(D2(c)) - Val(D3(c)) - Val(D4(c))
  }

  /** The signed row sum is congruent to the product. */
  lemma RowSumCongruent(c: seq<Word>)
    requires |c| == 16
    ensures Cong(RowSum(c), Val(c), P)
  {
    hide Val, Pow, Octet;
    ValSplit(c, 8);
    Pow8();
    Val8(c[8..]);
    Val8(S1(c));
    Val8(S2(c));
    Val8(S3(c));
    Val8(S4(c));
    Val8(D1(c));
    Val8(D2(c));
    Val8(D3(c));
    Val8(D4(c));
    var q := RowQuotient(Val(c[..8]), c[8], c[9], c[10], c[11], c[12], c[13], c[14], c[15]);
    hide *;
    PValue();
    SameProduct(q, P, 0xFFFFFFFF_00000001_00000000_00000000_00000000_FFFFFFFF_FFFFFFFF_FFFFFFFF);
    CongIntro(RowSum(c), Val(c), P, q);
  }

  lemma SameProduct(q: int, p: int, c: int)
    requires p == c
    ensures q * p == q * c
  {
  }

  /** The multiple of the prime between a product and its row sum. */
  lemma RowQuotient(t: int, c8: int, c9: int, c10: int, c11: int, c12: int, c13: int, c14: int, c15: int)
    returns (q: int)
    ensures q * 0xFFFFFFFF_00000001_00000000_00000000_00000000_FFFFFFFF_FFFFFFFF_FFFFFFFF
            == t + 2 * Octet(0, 0, 0, c11, c12, c13, c14, c15) + 2 * Octet(0, 0, 0, c12, c13, c14, c15, 0)
               + Octet(c8, c9, c10, 0, 0, 0, c14, c15) + Octet(c9, c10, c11, c13, c14, c15, c13, c8)
               - Octet(c11, c12, c13, 0, 0, 0, c8, c10) - Octet(c12, c13, c14, c15, 0, 0, c9, c11)
               - Octet(c13, c14, c15, c8, c9, c10, 0, c12) - Octet(c14, c15, 0, c9, c10, c11, 0, c13)
               - (t + 0x1_00000000_00000000_00000000_00000000_00000000_00000000_00000000_00000000
                      * Octet(c8, c9, c10, c11, c12, c13, c14, c15))
  {
    q := -(0x1 * c8 + 0x1_00000001 * c9 + 0x1_00000001_00000000 * c10
           + 0x1_00000000_FFFFFFFF_FFFFFFFF * c11 + 0x1_00000000_FFFFFFFF_FFFFFFFE_FFFFFFFF * c12
           + 0x1_00000000_FFFFFFFF_FFFFFFFE_FFFFFFFE_FFFFFFFF * c13
           + 0x1_00000000_FFFFFFFF_FFFFFFFE_FFFFFFFE_FFFFFFFE_FFFFFFFF * c14
           + 0x1_00000000_FFFFFFFF_FFFFFFFE_FFFFFFFE_FFFFFFFE_FFFFFFFF_00000000 * c15);
  }

  /** A signed carry above eight words. */
  function Total(carry: int, v: int): int {
    0x1_00000000_00000000_00000000_00000000_00000000_00000000_00000000_00000000 * carry + v
  }

  method Add8(result: array<Word>, left: array<Word>, right: array<Word>) returns (carry: Word)
    requires result.Length == left.Length == right.Length == 8
    modifies result
    ensures carry <= 1
    ensures Total(carry, Val(result[..])) == old(Val(left[..])) + old(Val(right[..]))
  {
    hide Val, Pow;
    assert left[..8] == left[..] && right[..8] == right[..];
    carry := VliAdd(result, left, right, 8);
    assert result[..8] == result[..];
    Pow8();
    assert carry * Pow(8) == if carry == 0 then 0 else Pow(8);
  }

  method Sub8(result: array<Word>, left: array<Word>, right: array<Word>) returns (borrow: int)
    requires result.Length == left.Length == right.Length == 8
    modifies result
    ensures 0 <= borrow <= 1
    ensures Total(-borrow, Val(result[..])) == old(Val(left[..])) - old(Val(right[..]))
  {
    hide Val, Pow;
    assert left[..8] == left[..] && right[..8] == right[..];
    borrow := VliSub(result, left, right, 8);
    assert result[..8] == result[..];
    Pow8();
    assert borrow * Pow(8) == if borrow == 0 then 0 else Pow(8);
  }

  /** Doubling leaves low zero words zero. */
  lemma DoubledLowWords(t: seq<Word>, s: seq<Word>, carry: Word)
    requires |t| == |s| == 8 && carry <= 1
    requires t[0] == t[1] == t[2] == 0
    requires Total(carry, Val(s)) == Val(t) + Val(t)
    ensures s[0] == s[1] == s[2] == 0
  {
    hide Val;
    Val8(s);
    Val8(t);
    LowPartZero(Quad(s[0], s[1], s[2], 0), OctetAbove(t) + OctetAbove(t) - OctetAbove(s) - HighWeight(carry));
  }

  /** Words 3 to 7 over 2^96. */
  function OctetAbove(s: seq<Word>): int
    requires |s| == 8
  {
    s[3] + 0x1_00000000 * Quad(s[4], s[5], s[6], s[7])
  }

  function HighWeight(carry: int): int {
    0x1_00000000_00000000_00000000_00000000_00000000 * carry
  }

  lemma LowPartZero(low: nat, k: int)
    requires low < 0x1_00000000_00000000_00000000 && low == 0x1_00000000_00000000_00000000 * k
    ensures low == 0
  {
  }

  method Fill(tmp: array<Word>, a: Word, b: Word, c: Word, d: Word, e: Word, f: Word, g: Word, h: Word)
    requires tmp.Length == 8
    modifies tmp
    ensures tmp[..] == [a, b, c, d, e, f, g, h]
  {
    tmp[0], tmp[1], tmp[2], tmp[3] := a, b, c, d;
    tmp[4], tmp[5], tmp[6], tmp[7] := e, f, g, h;
  }

  /** The rows that are added: t, twice s1, twice s2, s3, s4. */
  method AddRows(result: array<Word>, tmp: array<Word>, product: array<Word>) returns (carry: int)
    requires result.Length == tmp.Length == 8 && product.Length == 16
    requires result != product && tmp != product && result != tmp
    modifies result, tmp
    ensures Total(carry, Val(result[..]))
            == Val(T(product[..])) + 2 * Val(S1(product[..])) + 2 * Val(S2(product[..]))
               + Val(S3(product[..])) + Val(S4(product[..]))
  {
    hide Val, Pow;
    ghost var c := product[..];
    VliSet(result, product, 8);
    assert result[..] == T(c);
    Fill(tmp, 0, 0, 0, product[11], product[12], product[13], product[14], product[15]);
    assert tmp[..] == S1(c);
    var d := Add8(tmp, tmp, tmp);
    DoubledLowWords(S1(c), tmp[..], d);
    var a := Add8(result, result, tmp);
    carry := d + a;
    assert Total(carry, Val(result[..])) == Val(T(c)) + 2 * Val(S1(c));
    Fill(tmp, tmp[0], tmp[1], tmp[2], product[12], product[13], product[14], product[15], 0);
    assert tmp[..] == S2(c);
    d := Add8(tmp, tmp, tmp);
    a := Add8(result, result, tmp);
    carry := carry + d + a;
    Fill(tmp, product[8], product[9], product[10], 0, 0, 0, product[14], product[15]);
    assert tmp[..] == S3(c);
    a := Add8(result, result, tmp);
    carry := carry + a;
    Fill(tmp, product[9], product[10], product[11], product[13], product[14], product[15], product[13], product[8]);
    assert tmp[..] == S4(c);
    a := Add8(result, result, tmp);
    carry := carry + a;
  }

  /** The rows that are subtracted: d1 to d4. */
  method SubtractRows(result: array<Word>, tmp: array<Word>, product: array<Word>, carryIn: int) returns (carry: int)
    requires result.Length == tmp.Length == 8 && product.Length == 16
    requires result != product && tmp != product && result != tmp
    modifies result, tmp
    ensures Total(carry, Val(result[..]))
            == old(Total(carryIn, Val(result[..])))
               - Val(D1(product[..])) - Val(D2(product[..])) - Val(D3(product[..])) - Val(D4(product[..]))
  {
    hide Val, Pow;
    ghost var c := product[..];
    Fill(tmp, product[11], product[12], product[13], 0, 0, 0, product[8], product[10]);
    assert tmp[..] == D1(c);
    var b := Sub8(result, result, tmp);
    carry := carryIn - b;
    Fill(tmp, product[12], product[13], product[14], product[15], 0, 0, product[9], product[11]);
    assert tmp[..] == D2(c);
    b := Sub8(result, result, tmp);
    carry := carry - b;
    Fill(tmp, product[13], product[14], product[15], product[8], product[9], product[10], 0, product[12]);
    assert tmp[..] == D3(c);
    b := Sub8(result, result, tmp);
    carry := carry - b;
    Fill(tmp, product[14], product[15], 0, product[9], product[10], product[11], 0, product[13]);
    assert tmp[..] == D4(c);
    b := Sub8(result, result, tmp);
    carry := carry - b;
  }

  lemma TotalRange(carry: int, s: seq<Word>)
    requires |s| == 8
    ensures carry < 0 ==> Total(carry, Val(s)) < 0
    ensures carry >= 0 ==> Total(carry, Val(s)) >= 0
    ensures carry == 0 <==> 0 <= Total(carry, Val(s)) < Total(1, 0)
    ensures Total(0, Val(s)) == Val(s)
  {
    Pow8();
    assert Val(s) < Pow(8);
  }

  lemma TotalMoves(carry: int, a: int, v: int, w: int, d: int)
    requires Total(a, w) == v + d
    ensures Total(carry + a, w) == Total(carry, v) + d
  {
  }

  lemma PBelowTotal()
    ensures 0 < P < Total(1, 0)
  {
    PValue();
    hide Val;
  }

  lemma CongShift(x: int, y: int, t: int, m: int, k: int)
    requires m > 0 && Cong(x, t, m) && y == x + k * m
    ensures Cong(y, t, m)
  {
    CongIntro(y, x, m, k);
    CongTrans(y, x, t, m);
  }

  /** The two correction loops: the signed total moves by P until it lies in [0, P). */
  method Correct(result: array<Word>, carryIn: int)
    requires result.Length == 8
    modifies result
    ensures Val(result[..]) < P && Cong(Val(result[..]), old(Total(carryIn, Val(result[..]))), P)
  {
    hide Val, Pow, Total;
    var p := CurveP();
    PValue();
    var carry := carryIn;
    ghost var t := Total(carry, Val(result[..]));
    CongRefl(t, P);
    TotalRange(carry, result[..]);
    if carry < 0 {
      while carry < 0
        invariant p[..] == PWords()
        invariant Cong(Total(carry, Val(result[..])), t, P)
        invariant Total(carry, Val(result[..])) < P
        decreases -Total(carry, Val(result[..]))
      {
        ghost var v := Val(result[..]);
        ghost var x := Total(carry, v);
        TotalRange(carry, result[..]);
        var a := Add8(result, result, p);
        TotalMoves(carry, a, v, Val(result[..]), P);
        carry := carry + a;
        CongShift(x, Total(carry, Val(result[..])), t, P, 1);
      }
      TotalRange(carry, result[..]);
      PBelowTotal();
    } else {
      assert p[..8] == p[..] && result[..8] == result[..];
      var cmp := VliCmpUnsafe(p, result, 8);
      while carry != 0 || cmp != 1
        invariant p[..] == PWords() && carry >= 0
        invariant Cong(Total(carry, Val(result[..])), t, P)
        invariant cmp == if P > Val(result[..]) then 1 else if P < Val(result[..]) then -1 else 0
        decreases Total(carry, Val(result[..]))
      {
        ghost var v := Val(result[..]);
        ghost var x := Total(carry, v);
        TotalRange(carry, result[..]);
        PBelowTotal();
        var b := Sub8(result, result, p);
        TotalMoves(carry, -b, v, Val(result[..]), 0 - P);
        carry := carry - b;
        CongShift(x, Total(carry, Val(result[..])), t, P, -1);
        TotalRange(carry, result[..]);
        assert p[..8] == p[..] && result[..8] == result[..];
        cmp := VliCmpUnsafe(p, result, 8);
      }
      TotalRange(carry, result[..]);
    }
  }

  lemma RowSumIs(c: seq<Word>)
    requires |c| == 16
    ensures RowSum(c) == Val(T(c)) + 2 * Val(S1(c)) + 2 * Val(S2(c)) + Val(S3(c)) + Val(S4(c))
                         - Val(D1(c)) - Val(D2(c)) - Val(D3(c)) - Val(D4(c))
  {
  }

  /** result = product mod P: nine rows summed with one signed carry, then corrected by multiples of P. */
  method VliMmodFast(result: array<Word>, product: array<Word>)
    requires result.Length == 8 && product.Length == 16 && result != product
    modifies result
    ensures Val(result[..]) == Val(product[..]) % P
  {
    hide *;
    ghost var c := product[..];
    var tmp := new Word[8];
    var carry := AddRows(result, tmp, product);
    carry := SubtractRows(result, tmp, product, carry);
    RowSumIs(c);
    RowSumCongruent(c);
    Correct(result, carry);
    CongTrans(Val(result[..]), RowSum(c), Val(c), P);
    CongSym(Val(result[..]), Val(c), P);
    CongIsMod(Val(c), Val(result[..]), P);
  }

}
