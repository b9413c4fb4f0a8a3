/** The Montgomery ladder on co-Z coordinates: what each step keeps, and the scalars it cannot handle. */
module Ladder {
  import opened Arith
  import opened Primes
  import opened P256
  import opened Field
  import opened Formulas
  import opened Refine
  import opened CurveGroup

  /** The co-Z coordinates of two finite points under the factor z. */
  function Coords(p: Point, q: Point, z: int): CoZ
    requires p.Affine? && q.Affine?
  {
    CoZ(RepX(p.x, z), RepY(p.y, z), RepX(q.x, z), RepY(q.y, z))
  }

  /** R0 = m p and R1 = (m + 1) p, under one nonzero factor z. */
  ghost predicate AtLadder(add: Adder, p: Point, m: nat, z: nat, r0x: nat, r0y: nat, r1x: nat, r1y: nat) {
    var q0, q1 := Mul(add, m, p), Mul(add, m + 1, p);
    0 < z < P && q0.Affine? && q1.Affine? && CoZ(r0x, r0y, r1x, r1y) == Coords(q0, q1, z)
  }

  /** The multiples at which a ladder step adds two points with different abscissas, twice. */
  ghost predicate Regular(m: nat) {
    !Divides(N, m) && !Divides(N, m + 1) && !Divides(N, 2 * m + 1)
  }

  lemma RepReduced(x: int, y: int, w: int)
    ensures RepX(x, M(w)) == RepX(x, w) && RepY(y, M(w)) == RepY(y, w)
  {
    hide M, Cong;
    var v := M(w);
    MCong(w);
    CongMul(v, w, v, w, P);
    CongRefl(x, P);
    CongMul(x, x, v * v, w * w, P);
    MEqual(x * (v * v), x * (w * w));
    CongMul(v, w, v * v, w * w, P);
    CongRefl(y, P);
    CongMul(y, y, Cube(v), Cube(w), P);
    MEqual(y * Cube(v), y * Cube(w));
  }

  lemma NonzeroProduct(a: int, b: int)
    requires ConstantsPrime() && M(a) != 0 && M(b) != 0
    ensures M(a * b) != 0
  {
    hide M, IsPrime;
    if M(a * b) == 0 {
      MMul(a, b);
      MCong(M(a) * M(b));
      DividesMod(P, M(a) * M(b));
      ZeroResidue(M(a) * M(b));
      PrimeDividesProduct(M(a), M(b), P);
      SmallNotDivided(M(a), P);
      SmallNotDivided(M(b), P);
      assert false;
    }
  }

  lemma ZeroResidue(x: int)
    ensures M(x) == 0 <==> Divides(P, x)
  {
    hide M, Divides;
    MIsMod(x);
    DividesMod(P, x);
  }

  /** The next factor is nonzero when the abscissas differ. */
  lemma NextFactor(x1: nat, x2: nat, z: nat)
    requires ConstantsPrime() && x1 < P && x2 < P && x1 != x2 && 0 < z < P
    ensures 0 < M(NextZ(x1, x2, z)) < P
  {
    hide M, IsPrime, Cube;
    MIdem(z);
    var d: int := x2 as int - x1 as int;
    assert M(d) != 0 by {
      if M(d) == 0 {
        ZeroResidue(d);
        DividesMod(P, d);
        CongSmallDifference(x1, x2);
      }
    }
    NonzeroProduct(z, z);
    NonzeroProduct(z, z * z);
    CubeIs(z);
    NonzeroProduct(Cube(z), d);
  }

  lemma CongSmallDifference(x1: nat, x2: nat)
    requires x1 < P && x2 < P && Cong(x2 as int - x1 as int, 0, P)
    ensures x1 == x2
  {
    var k := CongWitness(x2 as int - x1 as int, 0, P);
    CongIntro(x2, x1, P, k);
    CongSmall(x2, x1, P);
  }

  /** A chord equation for a reflected point, with its ordinate as an integer or as a residue. */
  lemma ChordReflected(x1: int, y1: int, x2: int, y2: int, x3: int, y3: int)
    requires IsChord(x1, y1, x2, FSub(0, y2), x3, y3)
    ensures IsChord(x1, y1, x2, -y2, x3, y3)
  {
    hide M, Cong;
    var n, d := FSub(0, y2), x2 - x1;
    MCong(0 - y2);
    CongRefl(y1, P);
    CongSub(n, -y2, y1, y1, P);
    CongMul(n - y1, -y2 - y1, n - y1, -y2 - y1, P);
    CongTrans((x3 + x1 + x2) * (d * d), (n - y1) * (n - y1), (-y2 - y1) * (-y2 - y1), P);
    CongRefl(x1 - x3, P);
    CongMul(n - y1, -y2 - y1, x1 - x3, x1 - x3, P);
    CongTrans((y3 + y1) * d, (n - y1) * (x1 - x3), (-y2 - y1) * (x1 - x3), P);
  }

  /** XYcZ_addC on points of the group: difference and sum under the next factor. */
  lemma AddCOnPoints(add: Adder, p: Point, q: Point, z: nat) returns (w: nat)
    requires IsCurveGroup(add) && ConstantsPrime() && OnCurve(p) && OnCurve(q)
    requires p.Affine? && q.Affine? && p.x != q.x && 0 < z < P
    ensures 0 < w < P && add(p, Neg(q)).Affine? && add(p, q).Affine?
    ensures CoZAddC(Coords(p, q, z)) == Coords(add(p, Neg(q)), add(p, q), w)
    ensures w == M(NextZ(p.x, q.x, z))
  {
    hide IsCurveGroup, ConstantsPrime, IsChord, CoZAddC, Cube, M;
    var s, d := add(p, q), add(p, Neg(q));
    NegOnCurve(add, q);
    Chord(add, p, q);
    Chord(add, p, Neg(q));
    ChordReflected(p.x, p.y, q.x, q.y, d.x, d.y);
    CoZAddCRefines(p.x, p.y, q.x, q.y, s.x, s.y, d.x, d.y, z);
    NextFactor(p.x, q.x, z);
    w := M(NextZ(p.x, q.x, z));
    RepReduced(s.x, s.y, NextZ(p.x, q.x, z));
    RepReduced(d.x, d.y, NextZ(p.x, q.x, z));
  }

  /** XYcZ_add on points of the group: the first point and the sum under the next factor. */
  lemma AddOnPoints(add: Adder, p: Point, q: Point, z: nat) returns (w: nat)
    requires IsCurveGroup(add) && ConstantsPrime() && OnCurve(p) && OnCurve(q)
    requires p.Affine? && q.Affine? && p.x != q.x && 0 < z < P
    ensures 0 < w < P && add(p, q).Affine?
    ensures CoZAdd(Coords(p, q, z)) == Coords(p, add(p, q), w)
    ensures w == M(NextZ(p.x, q.x, z))
  {
    hide IsCurveGroup, ConstantsPrime, IsChord, CoZAdd, Cube, M;
    var s := add(p, q);
    Chord(add, p, q);
    CoZAddRefines(p.x, p.y, q.x, q.y, s.x, s.y, z);
    NextFactor(p.x, q.x, z);
    w := M(NextZ(p.x, q.x, z));
    RepReduced(s.x, s.y, NextZ(p.x, q.x, z));
    RepReduced(p.x, p.y, NextZ(p.x, q.x, z));
  }

  /** The pair (difference, sum) between the two additions of a step. The difference is p or -p. */
  ghost predicate MidStep(add: Adder, p: Point, m: nat, bit: nat, w: nat, dx: nat, dy: nat, sx: nat, sy: nat) {
    var d, s := if bit == 1 then p else Neg(p), Mul(add, 2 * m + 1, p);
    0 < w < P && d.Affine? && s.Affine? && d.x != s.x && CoZ(dx, dy, sx, sy) == Coords(d, s, w)
  }

  lemma Odd2(m: nat)
    requires ConstantsPrime() && !Divides(N, m)
    ensures !Divides(N, 2 * m)
  {
    if Divides(N, 2 * m) {
      PrimeDividesProduct(2, m, N);
      SmallNotDivided(2, N);
    }
  }

  /** The first half of a step: XYcZ_addC(R[1 - nb], R[nb]). */
  lemma StepAddC(add: Adder, p: Point, m: nat, z: nat, bit: nat, r0x: nat, r0y: nat, r1x: nat, r1y: nat)
    requires IsCurveGroup(add) && ConstantsPrime() && OnCurve(p) && p.Affine? && bit <= 1
    requires AtLadder(add, p, m, z, r0x, r0y, r1x, r1y) && Regular(m)
    ensures var c := CoZAddC(if bit == 1 then CoZ(r1x, r1y, r0x, r0y) else CoZ(r0x, r0y, r1x, r1y));
            exists w :: MidStep(add, p, m, bit, w, c.x1, c.y1, c.x2, c.y2)
  {
    hide IsCurveGroup, ConstantsPrime, CoZAddC, M, Mul, Divides, OnCurve;
    var q0, q1 := Mul(add, m, p), Mul(add, m + 1, p);
    MulOnCurve(add, m, p);
    MulOnCurve(add, m + 1, p);
    SmallNotDivided(1, N);
    DistinctX(add, m + 1, m, p);
    MulAdd(add, m + 1, m, p);
    Closed(add, q0, q1);
    MulNeg(add, m + 1, m, p);
    MulOne(add, p);
    NegSwap(add, q0, q1);
    Odd2(m);
    Odd2(m + 1);
    DistinctX(add, 2 * m + 1, 1, p);
    if bit == 1 {
      var w := AddCOnPoints(add, q1, q0, z);
      var c := CoZAddC(CoZ(r1x, r1y, r0x, r0y));
      assert MidStep(add, p, m, bit, w, c.x1, c.y1, c.x2, c.y2);
    } else {
      var w := AddCOnPoints(add, q0, q1, z);
      var c := CoZAddC(CoZ(r0x, r0y, r1x, r1y));
      assert MidStep(add, p, m, bit, w, c.x1, c.y1, c.x2, c.y2);
    }
  }

  /** The second half: XYcZ_add(R[nb], R[1 - nb]). */
  lemma StepAdd(add: Adder, p: Point, m: nat, w: nat, bit: nat, dx: nat, dy: nat, sx: nat, sy: nat) returns (z: nat)
    requires IsCurveGroup(add) && ConstantsPrime() && OnCurve(p) && p.Affine? && bit <= 1
    requires MidStep(add, p, m, bit, w, dx, dy, sx, sy)
    ensures var c := CoZAdd(CoZ(sx, sy, dx, dy));
            && (bit == 1 ==> AtLadder(add, p, 2 * m + 1, z, c.x1, c.y1, c.x2, c.y2))
            && (bit == 0 ==> AtLadder(add, p, 2 * m, z, c.x2, c.y2, c.x1, c.y1))
    ensures z == M(NextZ(Mul(add, 2 * m + 1, p).x, p.x, w))
  {
    hide IsCurveGroup, ConstantsPrime, CoZAdd, M, Mul, Divides, OnCurve;
    var d, s := if bit == 1 then p else Neg(p), Mul(add, 2 * m + 1, p);
    MulOnCurve(add, 2 * m + 1, p);
    NegOnCurve(add, p);
    z := AddOnPoints(add, s, d, w);
    MulOne(add, p);
    if bit == 1 {
      MulAdd(add, 2 * m + 1, 1, p);
    } else {
      MulNeg(add, 2 * m + 1, 1, p);
    }
  }
}
