/** The formulas compute the chord-and-tangent law on the points their coordinates stand for,
    and keep their results on the curve. */
module Refine {
  import opened Arith
  import opened P256
  import opened Field
  import opened Formulas

  // The coordinates that stand for the affine point (x, y) under the factor z.
  function RepX(x: int, z: int): nat { M(x * (z * z)) }

  function RepY(y: int, z: int): nat { M(y * Cube(z)) }

  /** (x3, y3) is the third point of the chord through (x1, y1) and (x2, y2), reflected; no division. */
  ghost predicate IsChord(x1: int, y1: int, x2: int, y2: int, x3: int, y3: int) {
    var d, s := x2 - x1, y2 - y1;
    Cong((x3 + x1 + x2) * (d * d), s * s, P) && Cong((y3 + y1) * d, s * (x1 - x3), P)
  }

  /** (x3, y3) is the second point of the tangent at (x, y), reflected. */
  ghost predicate IsTangent(x: int, y: int, x3: int, y3: int) {
    var m := 3 * (x * x) - 3;
    Cong((x3 + 2 * x) * (4 * (y * y)), m * m, P) && Cong((y3 + y) * (2 * y), m * (x - x3), P)
  }

  /** The new common Z coordinate of a co-Z addition. */
  function NextZ(x1: int, x2: int, z: int): int {
    Cube(z) * (x2 - x1)
  }

  lemma RescaledX(x: int, z: int, d: int)
    ensures (x * (z * z)) * (((z * z) * d) * ((z * z) * d)) == x * ((Cube(z) * d) * (Cube(z) * d))
  {
    var q := z * z;
    assert Cube(z) == z * q;
    assert (z * q) * (z * q) == q * (q * q);
    assert ((z * q) * d) * ((z * q) * d) == (q * (q * q)) * (d * d);
  }

  lemma RescaledY(y: int, z: int, d: int)
    ensures (y * Cube(z)) * Cube((z * z) * d) == y * Cube(Cube(z) * d)
  {
    var q := z * z;
    assert Cube(q * d) == (q * (q * q)) * Cube(d);
    assert Cube(Cube(z) * d) == (Cube(z) * (Cube(z) * Cube(z))) * Cube(d);
    assert Cube(z) * (q * (q * q)) == Cube(z) * (Cube(z) * Cube(z));
  }

  lemma SumXScaled(x1: int, y1: int, x2: int, y2: int, z: int)
    ensures var u, d, s := Cube(z), x2 - x1, y2 - y1;
            SumX(x1 * (z * z), y1 * Cube(z), x2 * (z * z), y2 * Cube(z))
            == (u * u) * (s * s - (x1 + x2) * (d * d))
  {
    hide Cube;
    var u, d, s, q := Cube(z), x2 - x1, y2 - y1, z * z;
    assert x2 * q - x1 * q == q * d;
    assert y2 * u - y1 * u == u * s;
    RescaledX(x1, z, d);
    RescaledX(x2, z, d);
    CommonSquare(x1, x2, u, d, s);
  }

  lemma CommonSquare(x1: int, x2: int, u: int, d: int, s: int)
    ensures (u * s) * (u * s) - x1 * ((u * d) * (u * d)) - x2 * ((u * d) * (u * d))
            == (u * u) * (s * s - (x1 + x2) * (d * d))
  {
    assert (u * s) * (u * s) == (u * u) * (s * s);
    assert (u * d) * (u * d) == (u * u) * (d * d);
  }

  lemma SumYScaled(x1: int, y1: int, x2: int, y2: int, z: int, sx: int)
    requires sx == SumX(x1 * (z * z), y1 * Cube(z), x2 * (z * z), y2 * Cube(z))
    ensures var w := NextZ(x1, x2, z);
            SumY(x1 * (z * z), y1 * Cube(z), x2 * (z * z), y2 * Cube(z))
            == (Cube(z) * (y2 - y1)) * (x1 * (w * w) - sx) - y1 * Cube(w)
  {
    hide Cube, SumX;
    var u, d, q := Cube(z), x2 - x1, z * z;
    assert x2 * q - x1 * q == q * d;
    assert y2 * u - y1 * u == u * (y2 - y1);
    RescaledX(x1, z, d);
    RescaledY(y1, z, d);
  }

  /** From the chord equation for x3: the unreduced sum is x3 under the new factor. */
  lemma ChordX(x1: int, y1: int, x2: int, y2: int, x3: int, z: int, p: int)
    requires p > 0 && Cong((x3 + x1 + x2) * ((x2 - x1) * (x2 - x1)), (y2 - y1) * (y2 - y1), p)
    ensures var w := NextZ(x1, x2, z);
            Cong(SumX(x1 * (z * z), y1 * Cube(z), x2 * (z * z), y2 * Cube(z)), x3 * (w * w), p)
  {
    hide Cube, SumX;
    var u, d, s, w := Cube(z), x2 - x1, y2 - y1, NextZ(x1, x2, z);
    SumXScaled(x1, y1, x2, y2, z);
    var k := CongWitness((x3 + x1 + x2) * (d * d), s * s, p);
    ChordXNumbers(x1, x2, x3, u, d, s * s, k, p);
    CongIntro((u * u) * (s * s - (x1 + x2) * (d * d)), x3 * (w * w), p, -((u * u) * k));
  }

  lemma ChordXNumbers(x1: int, x2: int, x3: int, u: int, d: int, ss: int, k: int, p: int)
    requires (x3 + x1 + x2) * (d * d) == ss + k * p
    ensures (u * u) * (ss - (x1 + x2) * (d * d)) - x3 * ((u * d) * (u * d)) == -((u * u) * k) * p
  {
    assert (u * d) * (u * d) == (u * u) * (d * d);
    assert (x3 + x1 + x2) * (d * d) == x3 * (d * d) + (x1 + x2) * (d * d);
    assert (u * u) * (x3 * (d * d) - k * p) == (u * u) * (x3 * (d * d)) - ((u * u) * k) * p;
    assert (u * u) * (x3 * (d * d)) == x3 * ((u * u) * (d * d));
  }

  lemma ChordY(x1: int, y1: int, x2: int, y2: int, x3: int, y3: int, z: int, p: int)
    requires p > 0 && Cong((x3 + x1 + x2) * ((x2 - x1) * (x2 - x1)), (y2 - y1) * (y2 - y1), p)
    requires Cong((y3 + y1) * (x2 - x1), (y2 - y1) * (x1 - x3), p)
    ensures var w := NextZ(x1, x2, z);
            Cong(SumY(x1 * (z * z), y1 * Cube(z), x2 * (z * z), y2 * Cube(z)), y3 * Cube(w), p)
  {
    hide Cube, SumX, SumY;
    var u, d, s, w := Cube(z), x2 - x1, y2 - y1, NextZ(x1, x2, z);
    var sx := SumX(x1 * (z * z), y1 * Cube(z), x2 * (z * z), y2 * Cube(z));
    ChordX(x1, y1, x2, y2, x3, z, p);
    SumYScaled(x1, y1, x2, y2, z, sx);
    var k := CongWitness(sx, x3 * (w * w), p);
    var l := CongWitness((y3 + y1) * d, s * (x1 - x3), p);
    CubeIs(w);
    ChordYNumbers(x1, x3, y1, y3, u, d, s, w, sx, k, l, p);
    CongIntro((u * s) * (x1 * (w * w) - sx) - y1 * Cube(w), y3 * Cube(w), p, -(u * s) * k - (u * (w * w)) * l);
  }

  lemma CubeIs(w: int)
    ensures Cube(w) == w * (w * w)
  {
  }

  lemma ChordYNumbers(x1: int, x3: int, y1: int, y3: int, u: int, d: int, s: int, w: int, sx: int,
                      k: int, l: int, p: int)
    requires w == u * d && sx == x3 * (w * w) + k * p && (y3 + y1) * d == s * (x1 - x3) + l * p
    ensures (u * s) * (x1 * (w * w) - sx) - y1 * (w * (w * w)) - y3 * (w * (w * w))
            == (-(u * s) * k - (u * (w * w)) * l) * p
  {
    var q := w * w;
    assert x1 * q - sx == (x1 - x3) * q - k * p;
    assert (u * s) * ((x1 - x3) * q - k * p) == (u * q) * (s * (x1 - x3)) - ((u * s) * k) * p;
    assert (y3 + y1) * (w * q) == (u * q) * ((y3 + y1) * d);
    assert (u * q) * (s * (x1 - x3) + l * p) == (u * q) * (s * (x1 - x3)) + ((u * q) * l) * p;
  }

  /** XYcZ_add: the old first point and the chord sum, both under the new factor. */
  lemma CoZAddRefines(x1: int, y1: int, x2: int, y2: int, x3: int, y3: int, z: int)
    requires IsChord(x1, y1, x2, y2, x3, y3)
    ensures var w := NextZ(x1, x2, z);
            CoZAdd(CoZ(RepX(x1, z), RepY(y1, z), RepX(x2, z), RepY(y2, z)))
            == CoZ(RepX(x1, w), RepY(y1, w), RepX(x3, w), RepY(y3, w))
  {
    hide Cube, SumX, SumY, M, CoZAdd;
    var w, d, q := NextZ(x1, x2, z), x2 - x1, z * z;
    CoZAddExact(x1 * q, y1 * Cube(z), x2 * q, y2 * Cube(z));
    assert x2 * q - x1 * q == q * d;
    RescaledX(x1, z, d);
    RescaledY(y1, z, d);
    ChordX(x1, y1, x2, y2, x3, z, P);
    ChordY(x1, y1, x2, y2, x3, y3, z, P);
    MEqual(SumX(x1 * q, y1 * Cube(z), x2 * q, y2 * Cube(z)), x3 * (w * w));
    MEqual(SumY(x1 * q, y1 * Cube(z), x2 * q, y2 * Cube(z)), y3 * Cube(w));
  }

  /** XYcZ_addC: the chord sums of (x1, y1) with the reflected and with the plain second point. */
  lemma CoZAddCRefines(x1: int, y1: int, x2: int, y2: int, x3: int, y3: int, x4: int, y4: int, z: int)
    requires IsChord(x1, y1, x2, y2, x3, y3) && IsChord(x1, y1, x2, -y2, x4, y4)
    ensures var w := NextZ(x1, x2, z);
            CoZAddC(CoZ(RepX(x1, z), RepY(y1, z), RepX(x2, z), RepY(y2, z)))
            == CoZ(RepX(x4, w), RepY(y4, w), RepX(x3, w), RepY(y3, w))
  {
    hide Cube, SumX, SumY, M, CoZAddC;
    var w, q, u := NextZ(x1, x2, z), z * z, Cube(z);
    CoZAddCExact(x1 * q, y1 * u, x2 * q, y2 * u);
    assert -(y2 * u) == (-y2) * u;
    ChordX(x1, y1, x2, y2, x3, z, P);
    ChordY(x1, y1, x2, y2, x3, y3, z, P);
    ChordX(x1, y1, x2, -y2, x4, z, P);
    ChordY(x1, y1, x2, -y2, x4, y4, z, P);
    MEqual(SumX(x1 * q, y1 * u, x2 * q, y2 * u), x3 * (w * w));
    MEqual(SumY(x1 * q, y1 * u, x2 * q, y2 * u), y3 * Cube(w));
    MEqual(SumX(x1 * q, y1 * u, x2 * q, (-y2) * u), x4 * (w * w));
    MEqual(SumY(x1 * q, y1 * u, x2 * q, (-y2) * u), y4 * Cube(w));
  }
}
