/** Primes: inverses, cancellation, and the greatest common divisor with a prime. */
module Primes {
  import opened Arith
  import opened ModInv

  ghost predicate IsPrime(p: int) {
    p > 1 && forall d: int :: 1 < d < p ==> !Divides(d, p)
  }

  lemma DividesRefl(a: int)
    ensures Divides(a, a)
  {
    assert Multiple(1, a, a);
  }

  /** Bezout's identity by Euclid's algorithm. */
  lemma {:induction false} Bezout(a: nat, b: nat) returns (x: int, y: int, g: nat)
    requires a > 0 || b > 0
    ensures g > 0 && a * x + b * y == g && Divides(g, a) && Divides(g, b)
    decreases b
  {
    if b == 0 {
      x, y, g := 1, 0, a;
      DividesRefl(a);
      assert Multiple(0, g, b);
    } else {
      var u, v;
      u, v, g := Bezout(b, a % b);
      x, y := v, u - (a / b) * v;
      EuclidStep(a, b, u, v, g);
    }
  }

  lemma EuclidStep(a: nat, b: nat, u: int, v: int, g: nat)
    requires b > 0 && g > 0 && b * u + (a % b) * v == g && Divides(g, b) && Divides(g, a % b)
    ensures a * v + b * (u - (a / b) * v) == g && Divides(g, a)
  {
    var q, r := a / b, a % b;
    assert a == q * b + r;
    assert a * v == (q * b) * v + r * v;
    var i :| Multiple(i, g, b);
    var j :| Multiple(j, g, r);
    assert q * b + r == (q * i + j) * g;
    assert Multiple(q * i + j, g, a);
  }

  lemma DivisorOfPrime(d: int, p: int)
    requires IsPrime(p) && d > 0 && Divides(d, p)
    ensures d == 1 || d == p
  {
    var k :| Multiple(k, d, p);
    if d > p {
      if k >= 1 {
        MulMono(d, 1, k);
      } else {
        MulMono(d, k, 0);
      }
      assert false;
    }
  }

  /** A number prime to p has an inverse. */
  lemma PrimeInverse(a: nat, p: nat) returns (x: nat)
    requires IsPrime(p) && !Divides(p, a)
    ensures Cong(a * x, 1, p)
  {
    var u, v, g := Bezout(a, p);
    DivisorOfPrime(g, p);
    assert g == 1;
    x := u % p;
    CongMod(u, p);
    CongRefl(a, p);
    CongMul(a, a, x, u, p);
    CongIntro(a * u, 1, p, -v);
    CongTrans(a * x, a * u, 1, p);
  }

  lemma DividesMod(p: int, a: int)
    requires p > 0
    ensures Divides(p, a) <==> Cong(a, 0, p)
    ensures Divides(p, a) <==> a % p == 0
  {
    ModsAgree(a, 0, p);
    DivUnique(0, p, 0, 0);
  }

  /** A factor prime to p cancels. */
  lemma CancelPrime(a: nat, b: int, c: int, p: nat)
    requires IsPrime(p) && !Divides(p, a) && Cong(a * b, a * c, p)
    ensures Cong(b, c, p)
  {
    var x := PrimeInverse(a, p);
    CongRefl(x, p);
    CongMul(x, x, a * b, a * c, p);
    Unscale(a, x, b, p);
    Unscale(a, x, c, p);
    CongSym(x * (a * b), b, p);
    CongTrans(b, x * (a * b), x * (a * c), p);
    CongTrans(b, x * (a * c), c, p);
  }

  lemma Unscale(a: int, x: int, b: int, p: int)
    requires p > 0 && Cong(a * x, 1, p)
    ensures Cong(x * (a * b), b, p)
  {
    CongRefl(b, p);
    CongMul(a * x, 1, b, b, p);
    assert (a * x) * b == x * (a * b);
  }

  /** Euclid's lemma. */
  lemma PrimeDividesProduct(a: nat, b: int, p: nat)
    requires IsPrime(p) && Divides(p, a * b)
    ensures Divides(p, a) || Divides(p, b)
  {
    if !Divides(p, a) {
      DividesMod(p, a * b);
      CancelPrime(a, b, 0, p);
      DividesMod(p, b);
    }
  }

  lemma SmallNotDivided(a: int, p: int)
    requires 0 < a < p
    ensures !Divides(p, a)
  {
    DividesMod(p, a);
    DivUnique(a, p, 0, a);
  }

  /** The gcd of a nonzero residue and a prime is 1. */
  lemma GcdWithPrime(g: int, a: int, p: int)
    requires IsPrime(p) && 0 < a < p && IsGcd(g, a, p)
    ensures g == 1
  {
    DividesRefl(g);
    assert Common(g, g, g);
    assert Common(g, a, p);
    DivisorOfPrime(g, p);
    SmallNotDivided(a, p);
  }
}
