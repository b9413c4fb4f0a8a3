/** What the formulas do with two opposite points: the coordinates fall onto the cusp y^2 = x^3 and then to zero. */
module Cusp {
  import opened Arith
  import opened P256
  import opened Field
  import opened Formulas
  import opened CurveGroup
  import opened Ladder

  /** One point is (0, 0), the other (g^2, g^3). */
  ghost predicate OnCusp(g: int, c: CoZ) {
    || c == CoZ(0, 0, M(g * g), M(Cube(g)))
    || c == CoZ(M(g * g), M(Cube(g)), 0, 0)
  }

  lemma MZero()
    ensures M(0) == 0
  {
  }

  lemma OppositeSums(a: int, b: int)
    ensures SumX(a, b, a, b) == 0 && SumY(a, b, a, b) == 0
    ensures SumX(a, b, a, -b) == (-2 * b) * (-2 * b) && SumY(a, b, a, -b) == Cube(2 * b)
  {
    assert a - a == 0;
    assert (-b - b) * (0 - (-2 * b) * (-2 * b)) == Cube(2 * b);
  }

  /** XYcZ_addC on opposite points. */
  lemma AddCOpposite(a: int, b: int)
    ensures CoZAddC(CoZ(M(a), M(b), M(a), M(-b))) == CoZ(0, 0, M((2 * b) * (2 * b)), M(Cube(2 * b)))
  {
    hide M, CoZAddC, SumX, SumY, Cube;
    CoZAddCExact(a, b, a, -b);
    OppositeSums(a, b);
    assert -(-b) == b;
    assert (-2 * b) * (-2 * b) == (2 * b) * (2 * b);
    MZero();
  }

  lemma CuspSums(c: int)
    ensures SumX(c * c, Cube(c), 0, 0) == 0 && SumY(c * c, Cube(c), 0, 0) == 0
    ensures SumX(0, 0, c * c, Cube(c)) == 0 && SumY(0, 0, c * c, Cube(c)) == 0
    ensures SumX(0, 0, c * c, -Cube(c)) == 0 && SumY(0, 0, c * c, -Cube(c)) == 0
    ensures (c * c) * ((0 - c * c) * (0 - c * c)) == (-Cube(c)) * (-Cube(c))
    ensures Cube(c) * Cube(0 - c * c) == Cube(-Cube(c))
  {
    var s, t := c * c, c * (c * c);
    assert t * t == s * (s * s);
    assert Cube(c) == t;
    assert t * (s * (s * s)) == t * (t * t);
  }

  /** XYcZ_add then keeps the second point at zero and the first on the cusp. */
  lemma AddOnCusp(c: int)
    ensures OnCusp(-Cube(c), CoZAdd(CoZ(M(c * c), M(Cube(c)), 0, 0)))
  {
    hide M, CoZAdd, SumX, SumY, Cube;
    CoZAddExact(c * c, Cube(c), 0, 0);
    CuspSums(c);
    MZero();
  }

  lemma SwapCusp(g: int, c: CoZ)
    requires OnCusp(g, c)
    ensures OnCusp(g, CoZ(c.x2, c.y2, c.x1, c.y1))
  {
  }

  /** From the cusp XYcZ_addC goes to zero, in either order. */
  lemma AddCFromCusp(g: int, c: CoZ)
    requires OnCusp(g, c)
    ensures CoZAddC(c) == CoZ(0, 0, 0, 0)
  {
    hide M, CoZAddC, SumX, SumY, Cube;
    MZero();
    CuspSums(g);
    if c == CoZ(0, 0, M(g * g), M(Cube(g))) {
      CoZAddCExact(0, 0, g * g, Cube(g));
    } else {
      CoZAddCExact(g * g, Cube(g), 0, 0);
    }
  }

  /** Opposite points on the ladder: 2 m + 1 = N. */
  lemma LadderOpposite(add: Adder, p: Point, m: nat, z: nat, r0x: nat, r0y: nat, r1x: nat, r1y: nat)
    returns (a: int, b: int)
    requires IsCurveGroup(add) && OnCurve(p) && 2 * m + 1 == N
    requires AtLadder(add, p, m, z, r0x, r0y, r1x, r1y)
    ensures r0x == r1x == M(a) && r0y == M(b) && r1y == M(-b)
  {
    hide IsCurveGroup, M, Mul, OnCurve, Cube;
    var q0, q1 := Mul(add, m, p), Mul(add, m + 1, p);
    MulOnCurve(add, m, p);
    MulOnCurve(add, m + 1, p);
    MulAdd(add, m, m + 1, p);
    Order(add, p);
    InverseUnique(add, q0, q1);
    a, b := q0.x * (z * z), q0.y * Cube(z);
    MCong(0 - q0.y);
    CongRefl(Cube(z), P);
    CongMul(q1.y, 0 - q0.y, Cube(z), Cube(z), P);
    assert (0 - q0.y) * Cube(z) == -b;
    MEqual(q1.y * Cube(z), -b);
  }

  /** A whole ladder step at opposite points ends on the cusp. */
  lemma StepOpposite(add: Adder, p: Point, m: nat, z: nat, bit: nat, r0x: nat, r0y: nat, r1x: nat, r1y: nat)
    requires IsCurveGroup(add) && OnCurve(p) && 2 * m + 1 == N && bit <= 1
    requires AtLadder(add, p, m, z, r0x, r0y, r1x, r1y)
    ensures var c := CoZAddC(if bit == 1 then CoZ(r1x, r1y, r0x, r0y) else CoZ(r0x, r0y, r1x, r1y));
            exists g: int :: OnCusp(g, CoZAdd(CoZ(c.x2, c.y2, c.x1, c.y1)))
  {
    hide IsCurveGroup, M, CoZAdd, CoZAddC, AtLadder, OnCurve, Cube, OnCusp;
    var a, b := LadderOpposite(add, p, m, z, r0x, r0y, r1x, r1y);
    var e := if bit == 1 then -b else b;
    AddCOpposite(a, e);
    AddOnCusp(2 * e);
    var c := CoZAddC(if bit == 1 then CoZ(r1x, r1y, r0x, r0y) else CoZ(r0x, r0y, r1x, r1y));
    assert OnCusp(-Cube(2 * e), CoZAdd(CoZ(c.x2, c.y2, c.x1, c.y1)));
  }
}
