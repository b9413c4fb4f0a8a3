/** The point formulas of ecc.c as functions on residues, and what they compute. */
module Formulas {
  import opened P256
  import opened Field

  /** Two points with one common Z coordinate, which is not stored. */
  datatype CoZ = CoZ(x1: nat, y1: nat, x2: nat, y2: nat)

  ghost predicate Below(c: CoZ) {
    c.x1 < P && c.y1 < P && c.x2 < P && c.y2 < P
  }

  datatype Jacobian = Jacobian(x: nat, y: nat, z: nat)

  /** Halving modulo the odd prime: add P first when odd. */
  function FHalf(a: nat): nat {
    if a % 2 == 1 then (a + P) / 2 else a / 2
  }

  /** double_jacobian_default. */
  function Double(j: Jacobian): Jacobian {
    if j.z == 0 then j
    else
      var yy := FMul(j.y, j.y);
      var A := FMul(j.x, yy);
      var yyyy := FMul(yy, yy);
      var z3 := FMul(j.y, j.z);
      var zz := FMul(j.z, j.z);
      var p := FAdd(j.x, zz);
      var m := FSub(p, FAdd(zz, zz));
      var w := FMul(p, m);
      var h := FHalf(FAdd(w, FAdd(w, w)));
      var x3 := FSub(FSub(FMul(h, h), A), A);
      var y3 := FSub(FMul(h, FSub(A, x3)), yyyy);
      Jacobian(x3, y3, z3)
  }

  /** The same coordinates with x and y reduced. */
  function Canonical(j: Jacobian): Jacobian {
    Jacobian(M(j.x), M(j.y), j.z)
  }

  /** Doubling may start from unreduced x and y. */
  lemma DoubleCanonical(j: Jacobian)
    ensures Canonical(Double(j)) == Double(Canonical(j))
  {
    hide M, FMul, FAdd, FSub, FHalf;
    var d, yy := Double(j), FMul(j.y, j.y);
    FMulResidues(j.y, j.y);
    FMulResidues(j.x, yy);
    FMulResidues(M(j.x), yy);
    FMulResidues(j.y, j.z);
    FMulResidues(M(j.y), j.z);
    MTwice(j.x);
    MTwice(j.y);
    FAddResidue(j.x, FMul(j.z, j.z));
    if j.z != 0 {
      MIdem(d.x);
      MIdem(d.y);
    }
  }

  /** XYcZ_add: the first point rescaled, and the sum. */
  function CoZAdd(c: CoZ): CoZ {
    var d := FSub(c.x2, c.x1);
    var A := FMul(d, d);
    var b := FMul(c.x1, A);
    var cc := FMul(c.x2, A);
    var s := FSub(c.y2, c.y1);
    var x3 := FSub(FSub(FMul(s, s), b), cc);
    var e := FMul(c.y1, FSub(cc, b));
    var y3 := FSub(FMul(s, FSub(b, x3)), e);
    CoZ(b, e, x3, y3)
  }

  /** XYcZ_addC: the difference of the points, and their sum. */
  function CoZAddC(c: CoZ): CoZ {
    var d := FSub(c.x2, c.x1);
    var A := FMul(d, d);
    var b := FMul(c.x1, A);
    var cc := FMul(c.x2, A);
    var p := FAdd(c.y2, c.y1);
    var s := FSub(c.y2, c.y1);
    var e := FMul(c.y1, FSub(cc, b));
    var bc := FAdd(b, cc);
    var x3 := FSub(FMul(s, s), bc);
    var y3 := FSub(FMul(s, FSub(b, x3)), e);
    var x3' := FSub(FMul(p, p), bc);
    var y3' := FSub(FMul(FSub(x3', b), p), e);
    CoZ(x3', y3', x3, y3)
  }

  /** apply_z: (x z^2, y z^3). */
  function ApplyX(x: nat, z: nat): nat {
    FMul(x, FMul(z, z))
  }

  function ApplyY(y: nat, z: nat): nat {
    FMul(y, FMul(FMul(z, z), z))
  }

  // The same formulas over the integers, without reduction.

  ghost function SumX(a1: int, b1: int, a2: int, b2: int): int {
    (b2 - b1) * (b2 - b1) - a1 * ((a2 - a1) * (a2 - a1)) - a2 * ((a2 - a1) * (a2 - a1))
  }

  ghost function SumY(a1: int, b1: int, a2: int, b2: int): int {
    (b2 - b1) * (a1 * ((a2 - a1) * (a2 - a1)) - SumX(a1, b1, a2, b2)) - b1 * Cube(a2 - a1)
  }

  function Cube(d: int): int {
    d * (d * d)
  }

  lemma ScaledDifference(b1: int, a1: int, a2: int)
    ensures b1 * (a2 * ((a2 - a1) * (a2 - a1)) - a1 * ((a2 - a1) * (a2 - a1))) == b1 * Cube(a2 - a1)
  {
    var d := a2 - a1;
    assert a2 * (d * d) - a1 * (d * d) == d * (d * d);
  }

  lemma CoZAddExact(a1: int, b1: int, a2: int, b2: int)
    ensures CoZAdd(CoZ(M(a1), M(b1), M(a2), M(b2)))
            == CoZ(M(a1 * ((a2 - a1) * (a2 - a1))), M(b1 * Cube(a2 - a1)),
                   M(SumX(a1, b1, a2, b2)), M(SumY(a1, b1, a2, b2)))
  {
    hide *;
    var d, s := a2 - a1, b2 - b1;
    var e, f, x3 := a1 * (d * d), a2 * (d * d), SumX(a1, b1, a2, b2);
    SumIs(a1, b1, a2, b2);
    MSub(a2, a1);
    MMul(d, d);
    MMul(a1, d * d);
    MMul(a2, d * d);
    MSub(b2, b1);
    MMul(s, s);
    MSub(s * s, e);
    MSub(s * s - e, f);
    MSub(f, e);
    MMul(b1, f - e);
    ScaledDifference(b1, a1, a2);
    CoZAddSteps(CoZ(M(a1), M(b1), M(a2), M(b2)), M(d), M(d * d), M(e), M(f), M(s), M(x3), M(b1 * (f - e)));
    MSub(e, x3);
    MMul(s, e - x3);
    MSub(s * (e - x3), b1 * Cube(d));
  }

  lemma CoZAddSteps(c: CoZ, d: nat, A: nat, b: nat, cc: nat, s: nat, x3: nat, e: nat)
    requires d == FSub(c.x2, c.x1) && A == FMul(d, d) && b == FMul(c.x1, A) && cc == FMul(c.x2, A)
    requires s == FSub(c.y2, c.y1) && x3 == FSub(FSub(FMul(s, s), b), cc) && e == FMul(c.y1, FSub(cc, b))
    ensures CoZAdd(c) == CoZ(b, e, x3, FSub(FMul(s, FSub(b, x3)), e))
  {
    hide FSub, FMul;
  }

  lemma SumIs(a1: int, b1: int, a2: int, b2: int)
    ensures var d, s := a2 - a1, b2 - b1;
            && SumX(a1, b1, a2, b2) == s * s - a1 * (d * d) - a2 * (d * d)
            && SumY(a1, b1, a2, b2) == s * (a1 * (d * d) - SumX(a1, b1, a2, b2)) - b1 * Cube(d)
  {
  }

  /** One result of XYcZ_addC from the shared part, for the slope s. */
  lemma SlopeExact(s: int, e: int, f: int, c: int)
    ensures FSub(FMul(M(s), M(s)), M(e + f)) == M(s * s - e - f)
    ensures FSub(FMul(M(s), FSub(M(e), M(s * s - e - f))), M(c)) == M(s * (e - (s * s - e - f)) - c)
    ensures FSub(FMul(FSub(M(s * s - e - f), M(e)), M(-s)), M(c)) == M(s * (e - (s * s - e - f)) - c)
  {
    hide M, FAdd, FSub, FMul;
    MMul(s, s);
    MSub(s * s, e + f);
    var x := s * s - e - f;
    assert s * s - (e + f) == x;
    MSub(e, x);
    MMul(s, e - x);
    MSub(s * (e - x), c);
    MSub(x, e);
    MMul(x - e, -s);
    assert (x - e) * (-s) == s * (e - x);
  }

  lemma CoZAddCExact(a1: int, b1: int, a2: int, b2: int)
    ensures CoZAddC(CoZ(M(a1), M(b1), M(a2), M(b2)))
            == CoZ(M(SumX(a1, b1, a2, -b2)), M(SumY(a1, b1, a2, -b2)),
                   M(SumX(a1, b1, a2, b2)), M(SumY(a1, b1, a2, b2)))
  {
    hide M, FAdd, FSub, FMul, Cube;
    var d, s, p := a2 - a1, b2 - b1, -b2 - b1;
    var e, f := a1 * (d * d), a2 * (d * d);
    MSub(a2, a1);
    MMul(d, d);
    MMul(a1, d * d);
    MMul(a2, d * d);
    MSub(f, e);
    MMul(b1, f - e);
    ScaledDifference(b1, a1, a2);
    MAdd(e, f);
    MAdd(b2, b1);
    MSub(b2, b1);
    assert b2 + b1 == -p;
    SlopeExact(s, a1 * (d * d), a2 * (d * d), b1 * Cube(d));
    SlopeExact(p, a1 * (d * d), a2 * (d * d), b1 * Cube(d));
    SquareOfOpposite(p);
  }

  lemma SquareOfOpposite(p: int)
    ensures FMul(M(-p), M(-p)) == FMul(M(p), M(p))
  {
    hide M, FMul;
    MMul(-p, -p);
    MMul(p, p);
    assert (-p) * (-p) == p * p;
  }
}
