/** Shamir's double-scalar loop of uECC_verify, on points of the group. */
module Shamir {
  import opened Arith
  import opened Primes
  import opened P256
  import opened Field
  import opened Formulas
  import opened Refine
  import opened Doubling
  import opened CurveGroup
  import opened Ladder
  import opened FinalZ
  import opened EccPoint
  import opened Keys

  /** a G + b Q. */
  ghost function Sum(add: Adder, q: Point, a: nat, b: nat): Point {
    add(Mul(add, a, G()), Mul(add, b, q))
  }

  /** (x, y, z) are Jacobian coordinates of a finite point. */
  ghost predicate Stands(p: Point, j: Jacobian) {
    p.Affine? && 0 < j.z < P && j.x == RepX(p.x, j.z) && j.y == RepY(p.y, j.z)
  }

  lemma SumOnCurve(add: Adder, q: Point, a: nat, b: nat)
    requires GroupAssumed(add) && OnCurve(q)
    ensures OnCurve(Sum(add, q, a, b))
  {
    hide IsCurveGroup, OnCurve, Mul;
    BaseOnCurve();
    MulOnCurve(add, a, G());
    MulOnCurve(add, b, q);
    Closed(add, Mul(add, a, G()), Mul(add, b, q));
  }

  lemma Interchange(add: Adder, p: Point, q: Point, r: Point, s: Point)
    requires IsCurveGroup(add) && OnCurve(p) && OnCurve(q) && OnCurve(r) && OnCurve(s)
    ensures add(add(p, q), add(r, s)) == add(add(p, r), add(q, s))
  {
    hide IsCurveGroup, OnCurve;
    Closed(add, r, s);
    Closed(add, q, s);
    Closed(add, q, r);
    Closed(add, r, q);
    Assoc(add, p, q, add(r, s));
    Assoc(add, q, r, s);
    Assoc(add, r, q, s);
    Assoc(add, p, r, add(q, s));
  }

  /** Doubling and adding the points of the next two bits moves both scalars one bit on. */
  lemma SumStep(add: Adder, q: Point, a: nat, b: nat, a0: nat, b0: nat)
    requires GroupAssumed(add) && OnCurve(q)
    ensures add(add(Sum(add, q, a, b), Sum(add, q, a, b)), Sum(add, q, a0, b0)) == Sum(add, q, 2 * a + a0, 2 * b + b0)
  {
    hide IsCurveGroup, OnCurve, Mul;
    BaseOnCurve();
    var x, y, u, v := Mul(add, a, G()), Mul(add, b, q), Mul(add, a0, G()), Mul(add, b0, q);
    MulOnCurve(add, a, G());
    MulOnCurve(add, b, q);
    MulOnCurve(add, a0, G());
    MulOnCurve(add, b0, q);
    Closed(add, x, x);
    Closed(add, y, y);
    Interchange(add, x, y, x, y);
    Interchange(add, add(x, x), add(y, y), u, v);
    MulAdd(add, a, a, G());
    MulAdd(add, b, b, q);
    MulAdd(add, 2 * a, a0, G());
    MulAdd(add, 2 * b, b0, q);
  }

  /** The point chosen by one bit of each scalar. */
  lemma PickedPoint(add: Adder, q: Point)
    requires GroupAssumed(add) && OnCurve(q)
    ensures Sum(add, q, 1, 0) == G() && Sum(add, q, 0, 1) == q && Sum(add, q, 1, 1) == add(G(), q)
    ensures Sum(add, q, 0, 0) == Infinity
  {
    hide IsCurveGroup, OnCurve;
    BaseOnCurve();
    InfinityOnCurve();
    assert Mul(add, 0, G()) == Infinity && Mul(add, 0, q) == Infinity;
    MulOne(add, G());
    MulOne(add, q);
    Zero(add, G());
    Zero(add, q);
    Zero(add, Infinity);
  }

  /** double_jacobian in the loop. */
  lemma DoubleStands(add: Adder, p: Point, j: Jacobian)
    requires GroupAssumed(add) && OnCurve(p) && Stands(p, j)
    ensures Stands(add(p, p), Double(j))
  {
    hide IsCurveGroup, ConstantsPrime, M, Double, OnCurve, IsTangent, Cube;
    PointBounds(p);
    NoOrderTwo(add, p);
    Tangent(add, p);
    var q, z := add(p, p), j.z;
    MIdem(z);
    MIdem(p.y);
    var w := (p.y * Cube(z)) * z;
    DoubleRefines(p.x, p.y, q.x, q.y, z);
    RepReduced(q.x, q.y, w);
    NonzeroProduct(z, z);
    CubeIs(z);
    NonzeroProduct(z, z * z);
    NonzeroProduct(p.y, Cube(z));
    NonzeroProduct(p.y * Cube(z), z);
  }

  /** The mixed addition in the loop: the affine point q scaled by z, XYcZ_add, and the new z. */
  function MixedAdd(j: Jacobian, qx: nat, qy: nat): Jacobian {
    var tx, ty := ApplyX(qx, j.z), ApplyY(qy, j.z);
    var c := CoZAdd(CoZ(tx, ty, j.x, j.y));
    Jacobian(c.x2, c.y2, FMul(j.z, FSub(j.x, tx)))
  }

  /** It may start from unreduced coordinates. */
  lemma MixedAddCanonical(j: Jacobian, qx: nat, qy: nat)
    ensures MixedAdd(j, qx, qy) == MixedAdd(Canonical(j), M(qx), M(qy))
  {
    hide M, FMul, FSub;
    var tx := ApplyX(qx, j.z);
    FMulResidues(qx, FMul(j.z, j.z));
    FMulResidues(M(qx), FMul(j.z, j.z));
    FMulResidues(qy, FMul(FMul(j.z, j.z), j.z));
    FMulResidues(M(qy), FMul(FMul(j.z, j.z), j.z));
    MTwice(qx);
    MTwice(qy);
    FSubResidue(j.x, tx);
    FSubResidue(j.y, ApplyY(qy, j.z));
    FMulResidues(j.x, FMul(FSub(j.x, tx), FSub(j.x, tx)));
    FMulResidues(M(j.x), FMul(FSub(j.x, tx), FSub(j.x, tx)));
    MTwice(j.x);
  }

  /** Equal abscissas make the new z zero. */
  lemma CollisionZero(p: Point, q: Point, j: Jacobian)
    requires Stands(p, j) && q.Affine? && p.x == q.x && q.x < P && q.y < P
    ensures MixedAdd(j, q.x, q.y).z == 0
  {
    hide M, CoZAdd, ApplyX, ApplyY, RepX, RepY;
    ApplyIsRep(q.x, q.y, j.z);
    MIdem(0);
    assert FSub(j.x, j.x) == 0 && FMul(j.z, 0) == 0;
  }

  /** From z = 0 no turn of the loop comes back. */
  lemma ZeroStays(j: Jacobian, x: nat, y: nat)
    requires j.z == 0
    ensures Double(j) == j && MixedAdd(j, x, y).z == 0
  {
    hide M, CoZAdd, ApplyX;
    var d := FSub(j.x, ApplyX(x, 0));
    assert 0 * d == 0;
    MIdem(0);
  }

  lemma MixedAddStands(add: Adder, p: Point, q: Point, j: Jacobian)
    requires GroupAssumed(add) && OnCurve(p) && OnCurve(q) && q.Affine? && Stands(p, j) && p.x != q.x
    ensures Stands(add(p, q), MixedAdd(j, q.x, q.y))
  {
    hide IsCurveGroup, ConstantsPrime, M, CoZAdd, OnCurve, IsChord, Cube;
    PointBounds(p);
    PointBounds(q);
    var z := j.z;
    ApplyIsRep(q.x, q.y, z);
    Closed(add, q, p);
    var w := AddOnPoints(add, q, p, z);
    MIdem(z);
    MSub(p.x * (z * z), q.x * (z * z));
    MMul(z, p.x * (z * z) - q.x * (z * z));
    FactorRegroups(z, p.x, q.x);
  }

  lemma FactorRegroups(z: int, a: int, b: int)
    ensures z * (a * (z * z) - b * (z * z)) == NextZ(b, a, z)
  {
    assert a * (z * z) - b * (z * z) == (a - b) * (z * z);
    assert z * ((a - b) * (z * z)) == (z * (z * z)) * (a - b);
  }

  /** An affine point stands for itself under z = 1. */
  lemma AffineStands(p: Point)
    requires p.Affine? && p.x < P && p.y < P
    ensures Stands(p, Jacobian(p.x, p.y, 1))
  {
    hide M;
    MIdem(p.x);
    MIdem(p.y);
    assert p.x * (1 * 1) == p.x;
    CubeIs(1);
    assert p.y * Cube(1) == p.y;
    assert 1 < P;
  }

  /** The stored sum G + Q: XYcZ_add of the two affine points, divided by the difference of abscissas. */
  lemma StoredSum(add: Adder, q: Point, inv: nat)
    requires GroupAssumed(add) && OnCurve(q) && q.Affine? && q.x != GX && inv < P
    requires Cong(inv * FSub(q.x, GX), 1, P)
    ensures add(G(), q).Affine?
    ensures var c := CoZAdd(CoZ(GX, GY, q.x, q.y));
            ApplyX(c.x2, inv) == add(G(), q).x && ApplyY(c.y2, inv) == add(G(), q).y
  {
    hide IsCurveGroup, ConstantsPrime, M, CoZAdd, OnCurve, IsChord, Cube, ApplyX, ApplyY;
    BaseOnCurve();
    PointBounds(G());
    PointBounds(q);
    AffineStands(G());
    AffineStands(q);
    var w := AddOnPoints(add, G(), q, 1);
    UnitFactor(GX, q.x);
    var s := add(G(), q);
    Closed(add, G(), q);
    PointBounds(s);
    MIdem(inv);
    ApplyInverse(s.x, s.y, w, inv);
  }

  lemma UnitFactor(a: int, b: int)
    ensures NextZ(a, b, 1) == b - a
  {
  }

  /** The addition at bit i, if there is one, does not meet a point of the same abscissa. */
  ghost predicate SafeAt(add: Adder, q: Point, u1: nat, u2: nat, i: nat) {
    var p := Sum(add, q, Shr(u1, i + 1), Shr(u2, i + 1));
    var r := Sum(add, q, Bit(u1, i), Bit(u2, i));
    var d := add(p, p);
    Bit(u1, i) + Bit(u2, i) > 0 && (Shr(u1, i + 1) > 0 || Shr(u2, i + 1) > 0) ==>
      d.Affine? && r.Affine? && d.x != r.x
  }

  ghost predicate SafeFrom(add: Adder, q: Point, u1: nat, u2: nat, i: nat) {
    forall k: nat :: i <= k ==> SafeAt(add, q, u1, u2, k)
  }

  /** No addition of the double-scalar loop meets two points of the same abscissa. */
  ghost predicate NoCollision(add: Adder, q: Point, u1: nat, u2: nat) {
    forall k: nat :: SafeAt(add, q, u1, u2, k)
  }

  /** Q is a finite point of the curve. */
  ghost predicate Finite(add: Adder, q: Point) {
    GroupAssumed(add) && OnCurve(q) && q.Affine?
  }

  /** No bit is set in both scalars. */
  ghost predicate NoCommonBit(u1: nat, u2: nat) {
    forall i: nat :: Bit(u1, i) == 0 || Bit(u2, i) == 0
  }

  /** The loop never asks for G + Q when it is not stored: Q is neither G nor -G, or no bit calls for both. */
  ghost predicate Served(add: Adder, q: Point, u1: nat, u2: nat) {
    Finite(add, q) && (q.x != GX || NoCommonBit(u1, u2))
  }

  lemma FinitePicked(add: Adder, q: Point)
    requires Finite(add, q)
    ensures Sum(add, q, 1, 0) == G() && Sum(add, q, 0, 1) == q && Sum(add, q, 1, 1) == add(G(), q)
  {
    hide GroupAssumed, OnCurve, Sum, G;
    PickedPoint(add, q);
  }

  /** Before bit i the registers stand for the sum of the prefixes above i. */
  ghost predicate AtBit(add: Adder, q: Point, u1: nat, u2: nat, i: nat, j: Jacobian) {
    && (Shr(u1, i) > 0 || Shr(u2, i) > 0)
    && Stands(Sum(add, q, Shr(u1, i), Shr(u2, i)), j)
  }

  /** ... if no addition so far has met equal abscissas; otherwise z is zero. */
  ghost predicate LoopAt(add: Adder, q: Point, u1: nat, u2: nat, i: nat, j: Jacobian) {
    if SafeFrom(add, q, u1, u2, i) then AtBit(add, q, u1, u2, i, j) else j.z == 0
  }

  lemma BitPrefix(u: nat, i: nat)
    ensures Shr(u, i) == 2 * Shr(u, i + 1) + Bit(u, i)
  {
  }

  /** The sums that the additions of the loop take up are finite. */
  lemma PickedAffine(add: Adder, q: Point, b1: nat, b2: nat)
    requires Finite(add, q) && b1 <= 1 && b2 <= 1 && b1 + b2 > 0 && (b1 == b2 ==> q.x != GX)
    ensures Sum(add, q, b1, b2).Affine?
  {
    hide IsCurveGroup, ConstantsPrime, OnCurve, Sum, IsChord;
    BaseOnCurve();
    PickedPoint(add, q);
    if b1 == b2 {
      Chord(add, G(), q);
    }
  }

  /** What one turn of the loop makes of the registers. */
  ghost function Turn(add: Adder, q: Point, u1: nat, u2: nat, i: nat, j: Jacobian): Jacobian {
    var r := Sum(add, q, Bit(u1, i), Bit(u2, i));
    if Bit(u1, i) + Bit(u2, i) > 0 && r.Affine? then MixedAdd(Double(j), r.x, r.y) else Double(j)
  }

  /** A turn that starts from the sum of the prefixes: it reaches the next sum, or meets equal abscissas and makes z
      zero. */
  lemma TurnStands(add: Adder, q: Point, u1: nat, u2: nat, i: nat, j: Jacobian)
    requires Served(add, q, u1, u2) && AtBit(add, q, u1, u2, i + 1, j)
    ensures var j' := Turn(add, q, u1, u2, i, j);
            if SafeAt(add, q, u1, u2, i) then AtBit(add, q, u1, u2, i, j') else j'.z == 0
  {
    hide IsCurveGroup, ConstantsPrime, OnCurve, Double, MixedAdd, Shr, Bit, Sum;
    var p, r := Sum(add, q, Shr(u1, i + 1), Shr(u2, i + 1)), Sum(add, q, Bit(u1, i), Bit(u2, i));
    SumOnCurve(add, q, Shr(u1, i + 1), Shr(u2, i + 1));
    SumOnCurve(add, q, Bit(u1, i), Bit(u2, i));
    BitPrefix(u1, i);
    BitPrefix(u2, i);
    BitBound(u1, i);
    BitBound(u2, i);
    DoubleStands(add, p, j);
    SumStep(add, q, Shr(u1, i + 1), Shr(u2, i + 1), Bit(u1, i), Bit(u2, i));
    Closed(add, p, p);
    if Bit(u1, i) == 0 && Bit(u2, i) == 0 {
      PickedPoint(add, q);
      Zero(add, add(p, p));
    } else {
      PickedAffine(add, q, Bit(u1, i), Bit(u2, i));
      if SafeAt(add, q, u1, u2, i) {
        MixedAddStands(add, add(p, p), r, Double(j));
      } else {
        PointBounds(r);
        CollisionZero(add(p, p), r, Double(j));
      }
    }
  }

  /** One turn of the loop, whether or not an addition has failed before. */
  lemma TurnExact(add: Adder, q: Point, u1: nat, u2: nat, i: nat, j: Jacobian)
    requires Served(add, q, u1, u2) && LoopAt(add, q, u1, u2, i + 1, j)
    ensures LoopAt(add, q, u1, u2, i, Turn(add, q, u1, u2, i, j))
  {
    hide GroupAssumed, OnCurve, AtBit, SafeAt, Double, MixedAdd, Bit, Sum;
    SafeSplits(add, q, u1, u2, i);
    if SafeFrom(add, q, u1, u2, i + 1) {
      TurnStands(add, q, u1, u2, i, j);
    } else {
      var r := Sum(add, q, Bit(u1, i), Bit(u2, i));
      ZeroStays(j, if r.Affine? then r.x else 0, if r.Affine? then r.y else 0);
    }
  }

  lemma SafeSplits(add: Adder, q: Point, u1: nat, u2: nat, i: nat)
    ensures SafeFrom(add, q, u1, u2, i) <==> SafeFrom(add, q, u1, u2, i + 1) && SafeAt(add, q, u1, u2, i)
  {
    hide SafeAt;
  }

  /** The loop starts at the top bit of the longer scalar, from one of the three points. */
  lemma FirstStands(add: Adder, q: Point, u1: nat, u2: nat, n: nat)
    requires Served(add, q, u1, u2)
    requires n > 0 && Shr(u1, n) == 0 && Shr(u2, n) == 0 && (Shr(u1, n - 1) == 1 || Shr(u2, n - 1) == 1)
    ensures var r := Sum(add, q, Bit(u1, n - 1), Bit(u2, n - 1));
            r.Affine? && LoopAt(add, q, u1, u2, n - 1, Jacobian(r.x, r.y, 1))
    ensures Bit(u1, n - 1) == 1 || Bit(u2, n - 1) == 1
  {
    hide IsCurveGroup, ConstantsPrime, OnCurve, Shr, Bit, Sum, Stands, IsChord;
    BitPrefix(u1, n - 1);
    BitPrefix(u2, n - 1);
    BitBound(u1, n - 1);
    BitBound(u2, n - 1);
    BaseOnCurve();
    SumOnCurve(add, q, Bit(u1, n - 1), Bit(u2, n - 1));
    PickedAffine(add, q, Bit(u1, n - 1), Bit(u2, n - 1));
    PointBounds(Sum(add, q, Bit(u1, n - 1), Bit(u2, n - 1)));
    AffineStands(Sum(add, q, Bit(u1, n - 1), Bit(u2, n - 1)));
    forall k: nat | n - 1 <= k
      ensures SafeAt(add, q, u1, u2, k)
    {
      ShrStaysZero(u1, n, k + 1);
      ShrStaysZero(u2, n, k + 1);
    }
  }

  lemma ShrStaysZero(x: nat, i: nat, j: nat)
    requires i <= j && Shr(x, i) == 0
    ensures Shr(x, j) == 0
  {
    ShrAdd(x, i, j - i);
  }

  lemma BitBound(u: nat, i: nat)
    ensures Bit(u, i) <= 1
  {
  }

  /** The registers hold nothing any more: z is zero, or both coordinates are. */
  ghost predicate Lost(j: Jacobian) {
    j.z == 0 || (j.x == 0 && j.y == 0)
  }

  /** Nothing that the loop does brings a point back. */
  lemma LostStays(j: Jacobian, x: nat, y: nat)
    requires Lost(j)
    ensures Lost(Double(j)) && Lost(MixedAdd(Double(j), x, y))
  {
    hide M, CoZAdd, ApplyX;
    if j.z != 0 {
      assert 0 * j.z == 0;
      MIdem(0);
    }
    ZeroStays(Double(j), x, y);
  }

  lemma LostEnd(j: Jacobian, inv: nat)
    requires Lost(j) && (j.z == 0 ==> inv == 0)
    ensures ApplyX(j.x, inv) == 0
  {
    hide M;
    ApplyZeroFactor(j.x, 0);
    if j.x == 0 {
      assert 0 * FMul(inv, inv) == 0;
      MIdem(0);
    }
  }

  /** The abscissa the loop leaves, reduced modulo n: that of u1 G + u2 Q, or zero after a collision. */
  ghost function LoopX(add: Adder, q: Point, u1: nat, u2: nat): nat {
    var s := Sum(add, q, u1, u2);
    if NoCollision(add, q, u1, u2) && s.Affine? then s.x % N else 0
  }

  /** At the end: dividing by z gives the abscissa of the sum, and zero after a collision. */
  lemma LoopEnd(add: Adder, q: Point, u1: nat, u2: nat, j: Jacobian, inv: nat)
    requires Served(add, q, u1, u2) && LoopAt(add, q, u1, u2, 0, j)
    requires inv < P && (j.z == 0 ==> inv == 0) && (IsPrime(P) && 0 < j.z < P ==> Cong(inv * j.z, 1, P))
    ensures NoCollision(add, q, u1, u2) ==> Sum(add, q, u1, u2).Affine?
    ensures ApplyX(j.x, inv) % N == LoopX(add, q, u1, u2)
  {
    hide IsCurveGroup, OnCurve, SafeAt, Sum, Cong, IsPrime, ApplyX, ApplyY;
    assert Shr(u1, 0) == u1 && Shr(u2, 0) == u2;
    if SafeFrom(add, q, u1, u2, 0) {
      SumOnCurve(add, q, u1, u2);
      var s := Sum(add, q, u1, u2);
      PointBounds(s);
      MIdem(inv);
      ApplyInverse(s.x, s.y, j.z, inv);
    } else {
      ApplyZeroFactor(j.x, 0);
    }
  }
}
