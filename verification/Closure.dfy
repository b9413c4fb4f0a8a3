/** The formulas keep points on the curve: an argument about a line and a cubic, with no division
    and no assumption about which points are met. */
module Closure {
  import opened Arith
  import opened P256
  import opened Field
  import opened Formulas
  import opened Doubling

  // The curve y^2 = x^3 - 3 x z^4 + b z^6.
  ghost function Alpha(z: int): int { -3 * ((z * z) * (z * z)) }

  ghost function Beta(z: int): int { B * ((z * z) * ((z * z) * (z * z))) }

  ghost function Cubic(x: int, al: int, be: int): int { x * (x * x) + al * x + be }

  ghost predicate OnCurveAt(x: int, y: int, z: int) {
    Cong(y * y, Cubic(x, Alpha(z), Beta(z)), P)
  }

  /** A line through (r1, t) of slope s meets the cubic again where the three abscissas sum to s^2. */
  lemma LineMeetsCubic(s: int, t: int, al: int, be: int, r1: int, r2: int, r3: int)
    requires s * s == r1 + r2 + r3
    ensures Cubic(r3, al, be) - (s * (r1 - r3) - t) * (s * (r1 - r3) - t)
            == (Cubic(r1, al, be) - t * t)
               + (r3 - r1) * (al - 2 * (s * t) + 2 * (r1 * r1) + r1 * r2 + r1 * r3 - r2 * r3)
  {
    var h := r3 - r1;
    assert (s * (r1 - r3) - t) * (s * (r1 - r3) - t) == (s * s) * (h * h) + 2 * (s * t) * h + t * t;
    assert (s * s) * (h * h) == (r1 + r2 + r3) * (h * h);
  }

  /** When the line is the chord, the linear remainder vanishes. */
  lemma ChordRemainder(x1: int, y1: int, d: int, s: int, ad: int, j: int, p: int)
    requires ad == (2 * y1 + s) * s - (3 * (x1 * x1) * d + 3 * (x1 * (d * d)) + Cube(d)) + j * p
    ensures var r1 := x1 * (d * d); var r2, t := r1 + Cube(d), y1 * Cube(d); var r3 := s * s - r1 - r2;
            ad * Cube(d) - 2 * (s * t) + 2 * (r1 * r1) + r1 * r2 + r1 * r3 - r2 * r3 == (j * Cube(d)) * p
  {
    var r1 := x1 * (d * d);
    var d3, t := Cube(d), y1 * Cube(d);
    var r2 := r1 + d3;
    ChordExpanded(x1, y1, d, s, ad, j, p);
    ChordSquares(r1, d3, r2, s * s, s * s - r1 - r2);
  }

  lemma ChordExpanded(x1: int, y1: int, d: int, s: int, ad: int, j: int, p: int)
    requires ad == (2 * y1 + s) * s - (3 * (x1 * x1) * d + 3 * (x1 * (d * d)) + Cube(d)) + j * p
    ensures var r1, d3, t := x1 * (d * d), Cube(d), y1 * Cube(d);
            ad * d3 == 2 * (s * t) + (s * s) * d3 - 3 * (r1 * r1) - 3 * (r1 * d3) - d3 * d3 + (j * d3) * p
  {
    var r1 := x1 * (d * d);
    var d3, t := Cube(d), y1 * Cube(d);
    assert (x1 * x1) * d * d3 == r1 * r1;
    assert (x1 * (d * d)) * d3 == r1 * d3;
    assert ((2 * y1 + s) * s) * d3 == 2 * (s * t) + (s * s) * d3;
    assert (j * p) * d3 == (j * d3) * p;
  }

  lemma ChordSquares(r1: int, d3: int, r2: int, ss: int, r3: int)
    requires r2 == r1 + d3 && r3 == ss - r1 - r2
    ensures 2 * (r1 * r1) + r1 * r2 + r1 * r3 - r2 * r3 == 3 * (r1 * r1) + 3 * (r1 * d3) + d3 * d3 - ss * d3
  {
    assert r1 * r3 - r2 * r3 == -(d3 * r3);
    assert r1 * r2 == r1 * r1 + r1 * d3;
    assert d3 * r3 == d3 * ss - 2 * (r1 * d3) - d3 * d3;
  }

  /** Rescaling a point by d rescales the whole equation. */
  lemma ScaledCubic(x: int, al: int, be: int, q: int)
    ensures Cubic(x * q, al * (q * q), be * (q * (q * q))) == (q * (q * q)) * Cubic(x, al, be)
  {
    var c := q * (q * q);
    assert (x * q) * ((x * q) * (x * q)) == c * (x * (x * x));
    assert (al * (q * q)) * (x * q) == c * (al * x);
    assert c * (x * (x * x) + al * x + be) == c * (x * (x * x)) + c * (al * x) + c * be;
  }

  lemma ScaledFactor(z: int, d: int)
    ensures Alpha(z * d) == Alpha(z) * ((d * d) * (d * d))
    ensures Beta(z * d) == Beta(z) * ((d * d) * ((d * d) * (d * d)))
  {
    var f, g := z * z, d * d;
    assert (z * d) * (z * d) == f * g;
    FactorNumbers(f, g);
  }

  lemma FactorNumbers(f: int, g: int)
    ensures (f * g) * (f * g) == (f * f) * (g * g)
    ensures (f * g) * ((f * g) * (f * g)) == (f * (f * f)) * (g * (g * g))
  {
  }

  lemma SquareOfCube(y: int, d: int)
    ensures (y * Cube(d)) * (y * Cube(d)) == ((d * d) * ((d * d) * (d * d))) * (y * y)
  {
  }

  /** A rescaled point satisfies the rescaled equation. */
  lemma RescaledOnCurve(x: int, y: int, z: int, d: int)
    requires OnCurveAt(x, y, z)
    ensures OnCurveAt(x * (d * d), y * Cube(d), z * d)
  {
    hide Cube, Alpha, Beta, Cubic;
    var q, c := d * d, (d * d) * ((d * d) * (d * d));
    var k := CongWitness(y * y, Cubic(x, Alpha(z), Beta(z)), P);
    ScaledFactor(z, d);
    ScaledCubic(x, Alpha(z), Beta(z), q);
    SquareOfCube(y, d);
    ScaledWitness(y * y, Cubic(x, Alpha(z), Beta(z)), k, P, c);
    CongIntro((y * Cube(d)) * (y * Cube(d)), Cubic(x * q, Alpha(z * d), Beta(z * d)), P, c * k);
  }

  lemma ScaledWitness(l: int, r: int, k: int, p: int, c: int)
    requires l == r + k * p
    ensures c * l - c * r == (c * k) * p
  {
  }

  /** Two points of the curve give alpha times the difference of their abscissas. */
  lemma ChordAlpha(x1: int, y1: int, x2: int, y2: int, al: int, be: int, k1: int, k2: int, p: int)
    requires y1 * y1 == Cubic(x1, al, be) + k1 * p && y2 * y2 == Cubic(x2, al, be) + k2 * p
    ensures var d, s := x2 - x1, y2 - y1;
            al * d == (2 * y1 + s) * s - (3 * (x1 * x1) * d + 3 * (x1 * (d * d)) + Cube(d)) + (k1 - k2) * p
  {
    CubeDifference(x1, x2 - x1);
    SquareDifference(y1, y2);
    hide Cube;
    Distributes(al, x1, x2);
    Distributes(p, k2, k1);
  }

  lemma SquareDifference(y1: int, y2: int)
    ensures (2 * y1 + (y2 - y1)) * (y2 - y1) == y2 * y2 - y1 * y1
  {
  }

  lemma Distributes(a: int, x: int, y: int)
    ensures a * (y - x) == a * y - a * x && (y - x) * a == y * a - x * a
  {
  }

  lemma CubeDifference(x: int, d: int)
    ensures var y := x + d; y * (y * y) - x * (x * x) == 3 * (x * x) * d + 3 * (x * (d * d)) + Cube(d)
  {
  }

  /** The chord sum is on the curve. */
  lemma SumOnCurve(x1: int, y1: int, x2: int, y2: int, z: int)
    requires OnCurveAt(x1, y1, z) && OnCurveAt(x2, y2, z)
    ensures OnCurveAt(SumX(x1, y1, x2, y2), SumY(x1, y1, x2, y2), z * (x2 - x1))
  {
    hide Cube, Alpha, Beta, Cubic;
    var d, s := x2 - x1, y2 - y1;
    var q, c := d * d, (d * d) * ((d * d) * (d * d));
    var al, be := Alpha(z), Beta(z);
    var k1 := CongWitness(y1 * y1, Cubic(x1, al, be), P);
    var k2 := CongWitness(y2 * y2, Cubic(x2, al, be), P);
    ChordAlpha(x1, y1, x2, y2, al, be, k1, k2, P);
    ChordRemainder(x1, y1, d, s, al * d, k1 - k2, P);
    var r1, r2, t := x1 * q, x2 * q, y1 * Cube(d);
    var r3 := SumX(x1, y1, x2, y2);
    CubeApart(x1, x2, d);
    CubeTimes(al, d);
    ScaledFactor(z, d);
    ScaledCubic(x1, al, be, q);
    SquareOfCube(y1, d);
    ScaledWitness(y1 * y1, Cubic(x1, al, be), k1, P, c);
    LineMeetsCubic(s, t, al * (q * q), be * (q * (q * q)), r1, r2, r3);
    var j := (k1 - k2) * Cube(d);
    LastWitness(Cubic(r3, Alpha(z * d), Beta(z * d)), SumY(x1, y1, x2, y2), c * k1, r3 - r1, j, P);
    CongIntro(SumY(x1, y1, x2, y2) * SumY(x1, y1, x2, y2), Cubic(r3, Alpha(z * d), Beta(z * d)), P,
              c * k1 - (r3 - r1) * j);
  }

  lemma CubeApart(x1: int, x2: int, d: int)
    requires d == x2 - x1
    ensures x2 * (d * d) == x1 * (d * d) + Cube(d)
  {
  }

  lemma CubeTimes(al: int, d: int)
    ensures (al * d) * Cube(d) == al * ((d * d) * (d * d))
  {
  }

  lemma LastWitness(f: int, y: int, a: int, h: int, j: int, p: int)
    requires f - y * y == -(a * p) + h * (j * p)
    ensures y * y - f == (a - h * j) * p
  {
    assert h * (j * p) == (h * j) * p;
  }

  /** Membership depends on residues only. */
  lemma OnCurveResidues(x: int, y: int, z: int, x': int, y': int, z': int)
    requires Cong(x, x', P) && Cong(y, y', P) && Cong(z, z', P) && OnCurveAt(x, y, z)
    ensures OnCurveAt(x', y', z')
  {
    hide Cong;
    CongMul(z, z', z, z', P);
    CongMul(z * z, z' * z', z * z, z' * z', P);
    CongRefl(-3, P);
    CongMul(-3, -3, (z * z) * (z * z), (z' * z') * (z' * z'), P);
    CongMul(Alpha(z), Alpha(z'), x, x', P);
    CongMul(z * z, z' * z', (z * z) * (z * z), (z' * z') * (z' * z'), P);
    CongRefl(B, P);
    CongMul(B, B, (z * z) * ((z * z) * (z * z)), (z' * z') * ((z' * z') * (z' * z')), P);
    CongMul(x, x', x, x', P);
    CongMul(x, x', x * x, x' * x', P);
    CongAdd(x * (x * x), x' * (x' * x'), Alpha(z) * x, Alpha(z') * x', P);
    CongAdd(x * (x * x) + Alpha(z) * x, x' * (x' * x') + Alpha(z') * x', Beta(z), Beta(z'), P);
    CongMul(y, y', y, y', P);
    CongSym(y * y, y' * y', P);
    CongTrans(y' * y', y * y, Cubic(x, Alpha(z), Beta(z)), P);
    CongTrans(y' * y', Cubic(x, Alpha(z), Beta(z)), Cubic(x', Alpha(z'), Beta(z')), P);
  }

  lemma Residues(x: int, y: int, z: int)
    ensures Cong(x, M(x), P) && Cong(y, M(y), P) && Cong(z, M(z), P)
  {
    MCong(x);
    MCong(y);
    MCong(z);
  }

  lemma ReducedCoZ(c: CoZ)
    requires Below(c)
    ensures c == CoZ(M(c.x1), M(c.y1), M(c.x2), M(c.y2))
  {
    MIdem(c.x1);
    MIdem(c.y1);
    MIdem(c.x2);
    MIdem(c.y2);
  }

  /** The common Z coordinate after XYcZ_add and XYcZ_addC. */
  function CoZFactor(c: CoZ, z: nat): nat {
    FMul(z, FSub(c.x2, c.x1))
  }

  lemma CoZFactorExact(c: CoZ, z: nat)
    ensures CoZFactor(c, z) == M(z * (c.x2 - c.x1))
  {
    MCong(c.x2 - c.x1);
    CongRefl(z, P);
    CongMul(z, z, FSub(c.x2, c.x1), c.x2 - c.x1, P);
    MEqual(z * FSub(c.x2, c.x1), z * (c.x2 - c.x1));
  }

  /** XYcZ_add keeps both points on the curve, under the new factor. */
  lemma CoZAddClosed(c: CoZ, z: nat)
    requires Below(c) && OnCurveAt(c.x1, c.y1, z) && OnCurveAt(c.x2, c.y2, z)
    ensures var r, w := CoZAdd(c), CoZFactor(c, z);
            OnCurveAt(r.x1, r.y1, w) && OnCurveAt(r.x2, r.y2, w)
  {
    hide OnCurveAt, CoZAdd, CoZFactor, SumX, SumY, Cube, M;
    ReducedCoZ(c);
    CoZFactorExact(c, z);
    CoZAddExact(c.x1, c.y1, c.x2, c.y2);
    SumOnCurve(c.x1, c.y1, c.x2, c.y2, z);
    RescaledOnCurve(c.x1, c.y1, z, c.x2 - c.x1);
    var d := c.x2 - c.x1;
    Residues(c.x1 * (d * d), c.y1 * Cube(d), z * d);
    OnCurveResidues(c.x1 * (d * d), c.y1 * Cube(d), z * d, M(c.x1 * (d * d)), M(c.y1 * Cube(d)), M(z * d));
    Residues(SumX(c.x1, c.y1, c.x2, c.y2), SumY(c.x1, c.y1, c.x2, c.y2), z * d);
    OnCurveResidues(SumX(c.x1, c.y1, c.x2, c.y2), SumY(c.x1, c.y1, c.x2, c.y2), z * d,
                    M(SumX(c.x1, c.y1, c.x2, c.y2)), M(SumY(c.x1, c.y1, c.x2, c.y2)), M(z * d));
  }

  lemma ReflectedOnCurve(x: int, y: int, z: int)
    requires OnCurveAt(x, y, z)
    ensures OnCurveAt(x, -y, z)
  {
    assert (-y) * (-y) == y * y;
  }

  /** XYcZ_addC keeps both points on the curve, under the new factor. */
  lemma CoZAddCClosed(c: CoZ, z: nat)
    requires Below(c) && OnCurveAt(c.x1, c.y1, z) && OnCurveAt(c.x2, c.y2, z)
    ensures var r, w := CoZAddC(c), CoZFactor(c, z);
            OnCurveAt(r.x1, r.y1, w) && OnCurveAt(r.x2, r.y2, w)
  {
    hide OnCurveAt, CoZAddC, CoZFactor, SumX, SumY, Cube, M;
    ReducedCoZ(c);
    CoZFactorExact(c, z);
    CoZAddCExact(c.x1, c.y1, c.x2, c.y2);
    var d := c.x2 - c.x1;
    SumOnCurve(c.x1, c.y1, c.x2, c.y2, z);
    Residues(SumX(c.x1, c.y1, c.x2, c.y2), SumY(c.x1, c.y1, c.x2, c.y2), z * d);
    OnCurveResidues(SumX(c.x1, c.y1, c.x2, c.y2), SumY(c.x1, c.y1, c.x2, c.y2), z * d,
                    M(SumX(c.x1, c.y1, c.x2, c.y2)), M(SumY(c.x1, c.y1, c.x2, c.y2)), M(z * d));
    var y2: int := c.y2;
    var n := -y2;
    ReflectedOnCurve(c.x2, c.y2, z);
    SumOnCurve(c.x1, c.y1, c.x2, n, z);
    Residues(SumX(c.x1, c.y1, c.x2, n), SumY(c.x1, c.y1, c.x2, n), z * d);
    OnCurveResidues(SumX(c.x1, c.y1, c.x2, n), SumY(c.x1, c.y1, c.x2, n), z * d, M(SumX(c.x1, c.y1, c.x2, n)),
                    M(SumY(c.x1, c.y1, c.x2, n)), M(z * d));
  }

  lemma SlopeAlpha(a: int, z: int)
    ensures 3 * ((a + z * z) * (a - z * z)) == 3 * (a * a) + Alpha(z)
  {
  }

  lemma TangentRemainder(a: int, q: int, h: int, al: int, j: int, p: int)
    requires 2 * h == 3 * (a * a) + al + j * p
    ensures var r, t := a * q, q * q;
            al * t - 2 * (h * t) + 2 * (r * r) + r * r == -(j * t) * p
  {
    var t := q * q;
    assert (a * q) * (a * q) == (a * a) * t;
    assert (2 * h) * t == 3 * ((a * a) * t) + al * t + (j * t) * p;
  }

  /** double_jacobian_default keeps the point on the curve, also through the odd branch of the halving. */
  lemma DoubleClosed(p: Jacobian)
    requires p.x < P && p.y < P && p.z < P && OnCurveAt(p.x, p.y, p.z)
    ensures var r := Double(p);
            OnCurveAt(r.x, r.y, r.z) && (p.z != 0 ==> r.z == FMul(p.y, p.z))
  {
    MIdem(p.x);
    MIdem(p.y);
    MIdem(p.z);
    if p.z != 0 {
      hide *;
      var a: int, b: int, z: int := p.x, p.y, p.z;
      var h := DoubleExact(a, b, z);
      var al, be, q := Alpha(z), Beta(z), b * b;
      OnCurveIs(a, b, z);
      var k := CongWitness(b * b, Cubic(a, al, be), P);
      var j := CongWitness(2 * h, 3 * ((a + z * z) * (a - z * z)), P);
      SlopeAlpha(a, z);
      var n := TangentMeets(a, b, h, al, be, k, j, P);
      ScaledFactor(z, b);
      var x3, y3 := TwiceX(a, b, h), TwiceY(a, b, h);
      CongIntro(y3 * y3, Cubic(x3, Alpha(z * b), Beta(z * b)), P, n);
      OnCurveIs(x3, y3, z * b);
      assert z * b == b * z;
      Residues(x3, y3, b * z);
      OnCurveResidues(x3, y3, b * z, M(x3), M(y3), M(b * z));
      ProductIs(b, z);
    }
  }

  lemma ProductIs(b: int, z: int)
    ensures FMul(b, z) == M(b * z)
  {
    hide M;
  }

  lemma OnCurveIs(x: int, y: int, z: int)
    ensures OnCurveAt(x, y, z) <==> Cong(y * y, Cubic(x, Alpha(z), Beta(z)), P)
  {
    hide Cong, Cubic, Alpha, Beta;
  }

  /** The second point of the tangent at (a, b) on y^2 = x^3 + al x + be, scaled by 2b, up to multiples of p. */
  lemma TangentMeets(a: int, b: int, h: int, al: int, be: int, k: int, j: int, p: int) returns (n: int)
    requires b * b == Cubic(a, al, be) + k * p && 2 * h == 3 * (a * a) + al + j * p
    ensures var x3, y3, q := TwiceX(a, b, h), TwiceY(a, b, h), b * b;
            y3 * y3 == Cubic(x3, al * (q * q), be * (q * (q * q))) + n * p
  {
    hide Cubic, TwiceX, TwiceY;
    var q, c := b * b, (b * b) * ((b * b) * (b * b));
    var r, t, x3, y3 := a * q, q * q, TwiceX(a, b, h), TwiceY(a, b, h);
    TwiceIs(a, b, h);
    TangentRemainder(a, q, h, al, j, p);
    ScaledCubic(a, al, be, q);
    ScaledWitness(b * b, Cubic(a, al, be), k, p, c);
    SquareOfSquare(b);
    LineMeetsCubic(h, t, al * (q * q), be * (q * (q * q)), r, r, x3);
    LastWitness(Cubic(x3, al * (q * q), be * (q * (q * q))), y3, c * k, x3 - r, -(j * t), p);
    n := c * k - (x3 - r) * (-(j * t));
  }

  lemma TwiceIs(a: int, b: int, h: int)
    ensures TwiceX(a, b, h) == h * h - 2 * (a * (b * b))
    ensures TwiceY(a, b, h) == h * (a * (b * b) - TwiceX(a, b, h)) - (b * b) * (b * b)
  {
  }

  lemma SquareOfSquare(b: int)
    ensures ((b * b) * (b * b)) * ((b * b) * (b * b)) == ((b * b) * ((b * b) * (b * b))) * (b * b)
  {
    var q := b * b;
    assert (q * q) * (q * q) == (q * (q * q)) * q;
  }
}
