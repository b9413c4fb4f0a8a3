/** The collisions of the verification loop in numbers, and a genuine signature that verification refuses. */
module Collision {
  import opened Arith
  import opened Primes
  import opened P256
  import opened Field
  import opened Refine
  import opened CurveGroup
  import opened Ladder
  import opened FinalZ
  import opened Keys
  import opened Shamir
  import opened Ecdsa
  import opened Verify

  /** For Q = d G the addition at bit i meets the multiples 2 (a + b d) and b1 + b2 d of G, with a and b the prefixes of
      the scalars above bit i: none of the two, their sum and their difference may be a multiple of n. */
  ghost predicate ClearAt(d: nat, u1: nat, u2: nat, i: nat) {
    var m := 2 * (Shr(u1, i + 1) + Shr(u2, i + 1) * d);
    var t := Bit(u1, i) + Bit(u2, i) * d;
    Bit(u1, i) + Bit(u2, i) > 0 && (Shr(u1, i + 1) > 0 || Shr(u2, i + 1) > 0) ==>
      !Divides(N, m) && !Divides(N, t) && !Divides(N, m + t) && !Divides(N, m - t)
  }

  lemma SumOfMultiples(add: Adder, d: nat, a: nat, b: nat)
    requires GroupAssumed(add)
    ensures b * d >= 0 && Sum(add, Mul(add, d, G()), a, b) == Mul(add, a + b * d, G())
  {
    hide IsCurveGroup, ConstantsPrime, OnCurve, Mul;
    BaseOnCurve();
    MulMul(add, b, d, G());
    MulAdd(add, a, b * d, G());
  }

  /** Two multiples of G are finite with different abscissas exactly when no combination of the scalars is zero. */
  lemma DifferentX(add: Adder, m: nat, t: nat)
    requires GroupAssumed(add)
    ensures var p, r := Mul(add, m, G()), Mul(add, t, G());
            p.Affine? && r.Affine? && p.x != r.x
            <==> !Divides(N, m) && !Divides(N, t) && !Divides(N, m + t) && !Divides(N, m - t)
  {
    hide IsCurveGroup, ConstantsPrime, OnCurve, Mul, Divides;
    BaseOnCurve();
    OrderExact(add, m, G());
    OrderExact(add, t, G());
    DividesNeg(N, m - t);
    if !Divides(N, m) && !Divides(N, t) {
      if Divides(N, m + t) {
        OppositeMultiples(add, m, t);
      } else if Divides(N, m - t) {
        DividesIsCong(m, t, N);
        MulCong(add, m, t, G());
      } else if m >= t {
        DistinctX(add, m, t, G());
      } else {
        DistinctX(add, t, m, G());
      }
    }
  }

  lemma DividesNeg(n: int, x: int)
    requires n > 0
    ensures Divides(n, x) <==> Divides(n, 0 - x)
  {
    DividesMod(n, x);
    DividesMod(n, 0 - x);
    hide Divides;
    if x % n == 0 {
      DivUnique(0 - x, n, 0 - x / n, 0);
    }
    if (0 - x) % n == 0 {
      DivUnique(x, n, 0 - (0 - x) / n, 0);
    }
  }

  lemma OppositeMultiples(add: Adder, m: nat, t: nat)
    requires GroupAssumed(add) && Divides(N, m + t) && Mul(add, m, G()).Affine?
    ensures Mul(add, t, G()).Affine? && Mul(add, t, G()).x == Mul(add, m, G()).x
  {
    hide IsCurveGroup, ConstantsPrime, OnCurve, Mul, Divides;
    BaseOnCurve();
    MulOnCurve(add, m, G());
    MulOnCurve(add, t, G());
    MulAdd(add, m, t, G());
    OrderExact(add, m + t, G());
    InverseUnique(add, Mul(add, m, G()), Mul(add, t, G()));
  }

  /** Collisions depend on the key and the scalars alone. */
  lemma CollisionNumbers(add: Adder, d: nat, u1: nat, u2: nat)
    requires GroupAssumed(add)
    ensures NoCollision(add, Mul(add, d, G()), u1, u2) <==> forall i: nat :: ClearAt(d, u1, u2, i)
  {
    hide GroupAssumed, OnCurve, Mul, Divides, SafeAt, ClearAt;
    forall i: nat
      ensures SafeAt(add, Mul(add, d, G()), u1, u2, i) <==> ClearAt(d, u1, u2, i)
    {
      SafeNumbers(add, d, u1, u2, i);
    }
  }

  lemma SafeNumbers(add: Adder, d: nat, u1: nat, u2: nat, i: nat)
    requires GroupAssumed(add)
    ensures SafeAt(add, Mul(add, d, G()), u1, u2, i) <==> ClearAt(d, u1, u2, i)
  {
    hide IsCurveGroup, ConstantsPrime, OnCurve, Mul, Divides, Sum, Shr, Bit;
    var a, b := Shr(u1, i + 1), Shr(u2, i + 1);
    SumOfMultiples(add, d, a, b);
    SumOfMultiples(add, d, Bit(u1, i), Bit(u2, i));
    BaseOnCurve();
    MulAdd(add, a + b * d, a + b * d, G());
    DifferentX(add, 2 * (a + b * d), Bit(u1, i) + Bit(u2, i) * d);
  }

  /** Under key 2 the doubled first point G meets the public key itself. */
  lemma KeyTwoCollides(add: Adder, u1: nat, u2: nat, i: nat)
    requires GroupAssumed(add)
    requires Shr(u1, i + 1) == 1 && Shr(u2, i + 1) == 0 && Bit(u1, i) == 0 && Bit(u2, i) == 1
    ensures !NoCollision(add, Mul(add, 2, G()), u1, u2)
  {
    hide GroupAssumed, Mul, SafeAt, Divides, Shr, Bit;
    CollisionNumbers(add, 2, u1, u2);
    DividesMod(N, 0);
    DivUnique(0, N, 0, 0);
    assert !ClearAt(2, u1, u2, i);
  }

  // The points 2 G and 4 G.
  const X2: nat := 0x7CF27B18_8D034F7E_8A523803_04B51AC3_C08969E2_77F21B35_A60B48FC_47669978
  const Y2: nat := 0x07775510_DB8ED040_293D9AC6_9F7430DB_BA7DADE6_3CE98229_9E04B79D_227873D1
  const X4: nat := 0xE2534A35_32D08FBB_A02DDE65_9EE62BD0_031FE2DB_785596EF_50930244_6B030852
  const Y4: nat := 0xE0F1575A_4C633CC7_19DFEE5F_DA862D76_4EFC96C3_F30EE005_5C42C23F_184ED8C6

  /** A tangent has one second point. */
  lemma TangentUnique(x: nat, y: nat, x3: nat, y3: nat, x4: nat, y4: nat)
    requires ConstantsPrime() && 0 < y < P && x3 < P && y3 < P && x4 < P && y4 < P
    requires IsTangent(x, y, x3, y3) && IsTangent(x, y, x4, y4)
    ensures x3 == x4 && y3 == y4
  {
    hide ConstantsPrime, Cong, M, Divides;
    var m, c := 3 * (x * x) - 3, 4 * (y * y);
    TwoBelow();
    MIdem(y);
    MIdem(2);
    NonzeroProduct(2, y);
    NonzeroProduct(2 * y, 2 * y);
    assert (2 * y) * (2 * y) == c;
    SameQuotient(x3, x4, 2 * x, c, m * m);
    SameQuotient(y3, y4, y, 2 * y, m * (x - x3));
  }

  lemma SameQuotient(a: nat, b: nat, t: nat, c: nat, e: int)
    requires ConstantsPrime() && a < P && b < P && M(c) != 0
    requires Cong((a + t) * c, e, P) && Cong((b + t) * c, e, P)
    ensures a == b
  {
    hide IsPrime, Cong, M, Divides;
    CongSym((b + t) * c, e, P);
    CongTrans((a + t) * c, e, (b + t) * c, P);
    ZeroResidue(c);
    assert (a + t) * c == c * (a + t) && (b + t) * c == c * (b + t);
    CancelPrime(c, a + t, b + t, P);
    CongRefl(t, P);
    CongSub(a + t, b + t, t, t, P);
    CongSmall(a, b, P);
  }

  lemma TangentsHold()
    ensures IsTangent(GX, GY, X2, Y2) && IsTangent(X2, Y2, X4, Y4)
    ensures 0 < GY < P && X2 < P && 0 < Y2 < P && X4 < P && Y4 < P
  {
    hide Cong;
    BaseBelow();
    FirstTangent(P);
    SecondTangent(P);
  }

  lemma FirstTangent(p: int)
    requires p == 0xFFFFFFFF_00000001_00000000_00000000_00000000_FFFFFFFF_FFFFFFFF_FFFFFFFF
    ensures var m := 3 * (GX * GX) - 3;
            Cong((X2 + 2 * GX) * (4 * (GY * GY)), m * m, p) && Cong((Y2 + GY) * (2 * GY), m * (GX - X2), p)
  {
    var m := 3 * (GX * GX) - 3;
    var a, b := (X2 + 2 * GX) * (4 * (GY * GY)), (Y2 + GY) * (2 * GY);
    CongIntro(a, m * m, p, (a - m * m) / p);
    CongIntro(b, m * (GX - X2), p, (b - m * (GX - X2)) / p);
  }

  lemma SecondTangent(p: int)
    requires p == 0xFFFFFFFF_00000001_00000000_00000000_00000000_FFFFFFFF_FFFFFFFF_FFFFFFFF
    ensures var m := 3 * (X2 * X2) - 3;
            Cong((X4 + 2 * X2) * (4 * (Y2 * Y2)), m * m, p) && Cong((Y4 + Y2) * (2 * Y2), m * (X2 - X4), p)
  {
    var m := 3 * (X2 * X2) - 3;
    var a, b := (X4 + 2 * X2) * (4 * (Y2 * Y2)), (Y4 + Y2) * (2 * Y2);
    CongIntro(a, m * m, p, (a - m * m) / p);
    CongIntro(b, m * (X2 - X4), p, (b - m * (X2 - X4)) / p);
  }

  lemma SmallMultiples(add: Adder)
    requires GroupAssumed(add)
    ensures Mul(add, 2, G()) == Affine(X2, Y2) && Mul(add, 4, G()) == Affine(X4, Y4)
  {
    hide IsCurveGroup, ConstantsPrime, OnCurve, Mul, IsTangent;
    TangentsHold();
    BaseOnCurve();
    MulOne(add, G());
    MulAdd(add, 1, 1, G());
    MulAdd(add, 2, 2, G());
    MulOnCurve(add, 2, G());
    DoubleIs(add, G(), X2, Y2);
    DoubleIs(add, Affine(X2, Y2), X4, Y4);
  }

  lemma DoubleIs(add: Adder, p: Point, x: nat, y: nat)
    requires GroupAssumed(add) && OnCurve(p) && p.Affine? && 0 < p.y < P && x < P && y < P && IsTangent(p.x, p.y, x, y)
    ensures add(p, p) == Affine(x, y)
  {
    hide IsCurveGroup, ConstantsPrime, OnCurve, IsTangent;
    Tangent(add, p);
    Closed(add, p, p);
    PointBounds(add(p, p));
    TangentUnique(p.x, p.y, add(p, p).x, add(p, p).y, x, y);
  }

  /** A digest for which key 2 and nonce 4 give the signature (X4, X4). */
  const REFUSED_DIGEST: nat := 0xC4A6946B_65A11F76_405BBCCB_3DCC57A0_4958CB09_49938F59_AD6C39C5_D9A2EB53

  /** A genuine signature that verification refuses: u1 = 2 and u2 = 1, and the first addition meets 2 G and Q = 2 G. */
  lemma GenuineRefused(add: Adder, ok: bool)
    requires GroupAssumed(add) && Verdict(add, Mul(add, 2, G()), REFUSED_DIGEST, X4, X4, ok)
    ensures Usable(2) && Usable(4) && Signed(add, 2, 4, REFUSED_DIGEST, X4, X4) && 0 < X4 < N && !ok
  {
    hide GroupAssumed, Mul, Cong, NoCollision, Usable, Verdict;
    SmallMultiples(add);
    GenuineNumbers();
    SmallUsable();
    assert Verify.Scalars(REFUSED_DIGEST, X4, X4, 2, 1);
    SmallBits();
    KeyTwoCollides(add, 2, 1, 0);
    SignedIsAccepted(add, 2, 4, REFUSED_DIGEST, X4, X4, ok, 2, 1);
  }

  /** With the same key and nonce: a signature whose s is zero, which is produced and refused. */
  lemma ZeroRefused(add: Adder, ok: bool)
    requires GroupAssumed(add) && Verdict(add, Mul(add, 2, G()), N - REFUSED_DIGEST, X4, 0, ok)
    ensures Usable(2) && Usable(4) && Signed(add, 2, 4, N - REFUSED_DIGEST, X4, 0) && !ok
  {
    hide GroupAssumed, Mul, Cong, Usable;
    SmallMultiples(add);
    GenuineNumbers();
    SmallUsable();
    CongIntro(0, (N - REFUSED_DIGEST) + X4 * 2, N, -2);
  }

  /** Under Q = G the scalars 1 and 1 ask for G + Q, which is stored as (0, 0): without a collision, and although
      u1 G + u2 Q has the abscissa r, the signature is refused. */
  lemma BaseKeyRefused(add: Adder, ok: bool)
    requires GroupAssumed(add) && Verdict(add, G(), X2, X2, X2, ok)
    ensures Signed(add, 1, 2, X2, X2, X2) && Verify.Scalars(X2, X2, X2, 1, 1) && NoCollision(add, G(), 1, 1)
    ensures Sum(add, G(), 1, 1) == Affine(X2, Y2) && X2 % N == X2 && !ok
  {
    hide IsCurveGroup, ConstantsPrime, OnCurve, Mul, Cong, Decides;
    BaseOnCurve();
    SmallMultiples(add);
    MulOne(add, G());
    MulAdd(add, 1, 1, G());
    CongRefl(2 * X2, N);
    CongRefl(X2, N);
    DivUnique(X2, N, 0, X2);
    assert Shr(1, 0) == 1;
    assert Verify.Scalars(X2, X2, X2, 1, 1);
    assert Answers(add, G(), X2, ok, 1, 1);
    NothingToAdd(add, G());
  }

  lemma NothingToAdd(add: Adder, q: Point)
    ensures NoCollision(add, q, 1, 1)
  {
    hide Sum;
    forall i: nat
      ensures SafeAt(add, q, 1, 1, i)
    {
      ShrStaysZero(1, 1, i + 1);
    }
  }

  lemma GenuineNumbers()
    ensures 0 < X4 < N
    ensures Cong(X4 * 4, REFUSED_DIGEST + X4 * 2, N)
    ensures Cong(2 * X4, REFUSED_DIGEST, N) && Cong(1 * X4, X4, N)
  {
    CongIntro(X4 * 4, REFUSED_DIGEST + X4 * 2, N, 1);
    CongIntro(2 * X4, REFUSED_DIGEST, N, 1);
    CongRefl(X4, N);
  }

  lemma SmallUsable()
    ensures Usable(2) && Usable(4)
  {
    DivUnique(2, N, 0, 2);
    DivUnique(4, N, 0, 4);
  }

  lemma SmallBits()
    ensures Shr(2, 1) == 1 && Shr(1, 1) == 0 && Bit(2, 0) == 0 && Bit(1, 0) == 1
  {
    assert Shr(2, 0) == 2 && Shr(1, 0) == 1;
  }
}
