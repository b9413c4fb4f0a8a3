/** Quotients, remainders, congruences and powers of two. */
module Arith {

  lemma MulMono(d: int, x: int, y: int)
    requires d >= 0 && x <= y
    ensures x * d <= y * d
  {
  }

  lemma QuotientOrder(a: int, b: int, q: int, r: int, d: int)
    requires d > 0 && a * d + b == q * d + r && 0 <= b && r < d
    ensures a <= q
  {
    assert (q + 1) * d == q * d + d;
    if a > q {
      MulMono(d, q + 1, a);
      assert false;
    }
  }

  /** The quotient and remainder are the only pair that fits. */
  lemma DivUnique(x: int, d: int, q: int, r: int)
    requires d > 0 && 0 <= r < d && x == q * d + r
    ensures x / d == q && x % d == r
  {
    var a, b := x / d, x % d;
    assert x == a * d + b;
    QuotientOrder(a, b, q, r, d);
    QuotientOrder(q, r, a, b, d);
  }

  function Pow2(k: nat): (r: nat)
    ensures r >= 1
  {
    if k == 0 then 1 else 2 * Pow2(k - 1)
  }

  lemma Pow2Succ(k: nat)
    ensures Pow2(k + 1) == 2 * Pow2(k)
  {
  }

  lemma {:induction false} Pow2Add(a: nat, b: nat)
    ensures Pow2(a + b) == Pow2(a) * Pow2(b)
  {
    if a > 0 {
      Pow2Add(a - 1, b);
    }
  }

  lemma Pow2Is32()
    ensures Pow2(32) == 0x1_0000_0000
  {
    assert Pow2(8) == 256;
    Pow2Add(8, 8);
    Pow2Add(16, 16);
  }

  lemma {:induction false} Pow2Mono(a: nat, b: nat)
    requires a <= b
    ensures Pow2(a) <= Pow2(b)
  {
    if a < b {
      Pow2Mono(a, b - 1);
    }
  }

  /** x shifted right by k bits. */
  function Shr(x: nat, k: nat): (r: nat)
    ensures r <= x
  {
    if k == 0 then x else Shr(x, k - 1) / 2
  }

  function Bit(x: nat, k: nat): (b: nat)
    ensures b <= 1
  {
    Shr(x, k) % 2
  }

  lemma {:induction false} ShrAdd(x: nat, a: nat, b: nat)
    ensures Shr(x, a + b) == Shr(Shr(x, a), b)
  {
    if b > 0 {
      ShrAdd(x, a, b - 1);
    }
  }

  /** What a shift by k bits keeps and drops. */
  lemma {:induction false} ShrBounds(x: nat, k: nat)
    ensures Shr(x, k) * Pow2(k) <= x < Shr(x, k) * Pow2(k) + Pow2(k)
  {
    if k > 0 {
      ShrBounds(x, k - 1);
      var y, q := Shr(x, k - 1), Pow2(k - 1);
      HalveTimes(y, q);
    }
  }

  lemma HalveTimes(y: nat, q: nat)
    ensures (y / 2) * (2 * q) <= y * q
    ensures y * q + q <= (y / 2) * (2 * q) + 2 * q
  {
    var h, b := y / 2, y % 2;
    assert y * q == (2 * h) * q + b * q;
    assert b == 0 || b == 1;
  }

  lemma ShrZero(x: nat, k: nat)
    ensures Shr(x, k) == 0 <==> x < Pow2(k)
  {
    ShrBounds(x, k);
    if Shr(x, k) > 0 {
      MulMono(Pow2(k), 1, Shr(x, k));
    }
  }

  lemma DoublePow2(k: nat, h: nat)
    ensures Pow2(k + 1) * h == 2 * (Pow2(k) * h)
  {
  }

  lemma ProductIsNat(a: nat, b: nat)
    ensures a * b >= 0
  {
  }

  lemma HalfOfSum(x: int, y: int)
    ensures (x + 2 * y) / 2 == x / 2 + y
  {
  }

  /** Adding a multiple of 2^m shows after a shift by j <= m bits as a multiple of 2^(m-j). */
  lemma {:induction false} ShrOfSum(w: nat, h: nat, m: nat, j: nat)
    requires j <= m
    ensures Pow2(m) * h >= 0 && Pow2(m - j) * h >= 0
    ensures Shr(w + Pow2(m) * h, j) == Shr(w, j) + Pow2(m - j) * h
  {
    hide Pow2;
    ProductIsNat(Pow2(m), h);
    ProductIsNat(Pow2(m - j), h);
    if j > 0 {
      ShrOfSum(w, h, m, j - 1);
      DoublePow2(m - j, h);
      HalfOfSum(Shr(w, j - 1), Pow2(m - j) * h);
    }
  }

  /** The number of bits of x. */
  function BitLength(x: nat): (n: nat) {
    if x == 0 then 0 else 1 + BitLength(x / 2)
  }

  lemma {:induction false} BitLengthIs(x: nat, n: nat)
    requires Shr(x, n) == 0 && (n > 0 ==> Shr(x, n - 1) == 1)
    ensures n == BitLength(x)
  {
    if n > 0 {
      ShrAdd(x, 1, n - 1);
      assert Shr(x, 1) == Shr(x, 0) / 2 == x / 2;
      if n > 1 {
        ShrAdd(x, 1, n - 2);
      }
      BitLengthIs(x / 2, n - 1);
    }
  }

  /** a and b leave the same remainder modulo m. */
  ghost predicate Cong(a: int, b: int, m: int)
    requires m > 0
  {
    Divides(m, a - b)
  }

  ghost predicate Divides(m: int, x: int) {
    exists k: int :: Multiple(k, m, x)
  }

  ghost predicate Multiple(k: int, m: int, x: int) {
    x == k * m
  }

  lemma CongIntro(a: int, b: int, m: int, k: int)
    requires m > 0 && a - b == k * m
    ensures Cong(a, b, m)
  {
    assert Multiple(k, m, a - b);
  }

  lemma CongWitness(a: int, b: int, m: int) returns (k: int)
    requires m > 0 && Cong(a, b, m)
    ensures a == b + k * m
  {
    k :| Multiple(k, m, a - b);
  }

  lemma CongMod(a: int, m: int)
    requires m > 0
    ensures Cong(a % m, a, m) && Cong(a, a % m, m)
  {
    CongIntro(a, a % m, m, a / m);
    CongIntro(a % m, a, m, -(a / m));
  }

  lemma CongRefl(a: int, m: int)
    requires m > 0
    ensures Cong(a, a, m)
  {
    CongIntro(a, a, m, 0);
  }

  lemma CongSym(a: int, b: int, m: int)
    requires m > 0 && Cong(a, b, m)
    ensures Cong(b, a, m)
  {
    var k := CongWitness(a, b, m);
    CongIntro(b, a, m, -k);
  }

  lemma CongTrans(a: int, b: int, c: int, m: int)
    requires m > 0 && Cong(a, b, m) && Cong(b, c, m)
    ensures Cong(a, c, m)
  {
    var k := CongWitness(a, b, m);
    var l := CongWitness(b, c, m);
    CongIntro(a, c, m, k + l);
  }

  lemma CongAdd(a: int, b: int, c: int, d: int, m: int)
    requires m > 0 && Cong(a, b, m) && Cong(c, d, m)
    ensures Cong(a + c, b + d, m)
  {
    var k := CongWitness(a, b, m);
    var l := CongWitness(c, d, m);
    CongIntro(a + c, b + d, m, k + l);
  }

  lemma CongSub(a: int, b: int, c: int, d: int, m: int)
    requires m > 0 && Cong(a, b, m) && Cong(c, d, m)
    ensures Cong(a - c, b - d, m)
  {
    var k := CongWitness(a, b, m);
    var l := CongWitness(c, d, m);
    CongIntro(a - c, b - d, m, k - l);
  }

  lemma CongMul(a: int, b: int, c: int, d: int, m: int)
    requires m > 0 && Cong(a, b, m) && Cong(c, d, m)
    ensures Cong(a * c, b * d, m)
  {
    var k := CongWitness(a, b, m);
    var l := CongWitness(c, d, m);
    assert a * c - b * d == (k * d + a * l) * m by {
      ProductGap(a, b, c, d, m, k, l);
    }
    CongIntro(a * c, b * d, m, k * d + a * l);
  }

  lemma ProductGap(a: int, b: int, c: int, d: int, m: int, k: int, l: int)
    requires a == b + k * m && c == d + l * m
    ensures a * c - b * d == (k * d + a * l) * m
  {
    assert a * c == a * d + a * (l * m);
    assert a * d == b * d + (k * m) * d;
  }

  /** Congruent numbers below the modulus are equal. */
  lemma CongSmall(a: int, b: int, m: int)
    requires m > 0 && Cong(a, b, m) && 0 <= a < m && 0 <= b < m
    ensures a == b
  {
    var k := CongWitness(a, b, m);
    if k > 0 {
      MulMono(m, 1, k);
      assert false;
    } else if k < 0 {
      MulMono(m, k, -1);
      assert false;
    }
  }

  lemma CongIsMod(a: int, r: int, m: int)
    requires m > 0 && Cong(a, r, m) && 0 <= r < m
    ensures a % m == r
  {
    CongMod(a, m);
    CongTrans(a % m, a, r, m);
    CongSmall(a % m, r, m);
  }

  lemma ModsAgree(a: int, b: int, m: int)
    requires m > 0
    ensures Cong(a, b, m) <==> a % m == b % m
  {
    CongMod(a, m);
    CongMod(b, m);
    if Cong(a, b, m) {
      CongTrans(a, b, b % m, m);
      CongIsMod(a, b % m, m);
    } else if a % m == b % m {
      CongTrans(a, a % m, b, m);
    }
  }
}
