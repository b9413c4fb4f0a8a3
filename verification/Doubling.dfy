/** The doubling formula computes the tangent law, with its halving done modulo P. */
module Doubling {
  import opened Arith
  import opened ModInv
  import opened P256
  import opened Field
  import opened Formulas
  import opened Refine

  lemma HalfTwice(a: nat)
    requires a < P
    ensures FHalf(a) < P && Cong(2 * FHalf(a), a, P)
  {
    if a % 2 == 1 {
      CongIntro(2 * FHalf(a), a, P, 1);
    } else {
      CongRefl(a, P);
    }
  }

  /** The new coordinates over the integers, given h with 2 h = 3 (a + zz) (a - zz) modulo P. */
  ghost function TwiceX(a: int, b: int, h: int): int {
    h * h - a * (b * b) - a * (b * b)
  }

  ghost function TwiceY(a: int, b: int, h: int): int {
    h * (a * (b * b) - TwiceX(a, b, h)) - (b * b) * (b * b)
  }

  lemma DoubleExact(a: int, b: int, z: int) returns (h: int)
    requires M(z) != 0
    ensures Cong(2 * h, 3 * ((a + z * z) * (a - z * z)), P)
    ensures Double(Jacobian(M(a), M(b), M(z))) == Jacobian(M(TwiceX(a, b, h)), M(TwiceY(a, b, h)), M(b * z))
  {
    hide M, FAdd, FSub, FMul, FHalf;
    var yy, zz := b * b, z * z;
    MMul(b, b);
    MMul(a, yy);
    MMul(yy, yy);
    MMul(b, z);
    MMul(z, z);
    MAdd(a, zz);
    MAdd(zz, zz);
    MSub(a + zz, zz + zz);
    assert a + zz - (zz + zz) == a - zz;
    var w := (a + zz) * (a - zz);
    MMul(a + zz, a - zz);
    MAdd(w, w);
    MAdd(w, w + w);
    h := FHalf(M(w + (w + w)));
    HalfTwice(M(w + (w + w)));
    MCong(w + (w + w));
    CongTrans(2 * h, M(w + (w + w)), w + (w + w), P);
    MIdem(h);
    MMul(h, h);
    MSub(h * h, a * yy);
    MSub(h * h - a * yy, a * yy);
    var x3 := TwiceX(a, b, h);
    MSub(a * yy, x3);
    MMul(h, a * yy - x3);
    MSub(h * (a * yy - x3), yy * yy);
  }

  /** The coordinates of a scaled point in powers of r = z^4. */
  lemma Powers(x: int, y: int, z: int)
    ensures var q, b := z * z, y * Cube(z); var r := q * q;
            b * z == y * r && (x * q) * (b * b) == (x * (y * y)) * (r * r)
                && (b * b) * (b * b) == ((y * y) * (y * y)) * (r * (r * r))
            && 3 * ((x * q + q) * (x * q - q)) == r * (3 * (x * x) - 3)
  {
    var q, b := z * z, y * Cube(z);
    var r := q * q;
    assert b == y * (z * q);
    assert (z * q) * z == q * q;
    assert (z * q) * (z * q) == q * r;
    assert b * b == (y * y) * (q * r);
    assert (x * q) * ((y * y) * (q * r)) == (x * (y * y)) * (q * (q * r));
    assert q * (q * r) == r * r;
    assert ((y * y) * (q * r)) * ((y * y) * (q * r)) == ((y * y) * (y * y)) * ((q * r) * (q * r));
    assert (q * r) * (q * r) == r * (r * r);
  }

  lemma QuadrupleX(x: int, y: int, x3: int, h: int, m: int, r: int, j: int, k: int, p: int)
    requires 2 * h == r * m + j * p && (x3 + 2 * x) * (4 * (y * y)) == m * m + k * p
    ensures 4 * (h * h - 2 * ((x * (y * y)) * (r * r))) - 4 * (x3 * ((y * r) * (y * r)))
            == (-((r * r) * k) + j * (r * m + 2 * h)) * p
  {
    var g, yy := 2 * h, y * y;
    assert 4 * (h * h) == g * g;
    assert g * g == (r * m) * (r * m) + (j * p) * (r * m + g);
    assert (r * m) * (r * m) == (r * r) * (m * m);
    assert (r * r) * ((x3 + 2 * x) * (4 * yy) - k * p)
           == 4 * (x3 * ((r * r) * yy)) + 8 * ((x * yy) * (r * r)) - ((r * r) * k) * p;
    assert (y * r) * (y * r) == (r * r) * yy;
  }

  lemma DoubleY(x: int, y: int, x3: int, y3: int, h: int, m: int, r: int, j: int, e: int, l: int, p: int, tx: int)
    requires 2 * h == r * m + j * p && tx == x3 * ((y * r) * (y * r)) + e * p
    requires (y3 + y) * (2 * y) == m * (x - x3) + l * p
    ensures 2 * (h * ((x * (y * y)) * (r * r) - tx) - ((y * y) * (y * y)) * (r * (r * r)))
            - 2 * (y3 * ((y * r) * ((y * r) * (y * r))))
            == (-((y * y) * (r * (r * r)) * l) + j * ((x * (y * y)) * (r * r) - tx) - (r * m) * e) * p
  {
    var v := (y * y) * (r * r);
    assert (y * r) * (y * r) == v;
    assert (x * (y * y)) * (r * r) == x * v;
    DoubleSlope(x, y, x3, y3, h, m, r, j, e, l, p, v, x * v - tx);
    assert ((y * y) * (y * y)) * (r * (r * r)) == (y * y) * (r * v);
    assert (y * y) * (r * (r * r)) == r * v;
    assert (y * r) * v == y * (r * v);
  }

  lemma DoubleSlope(x: int, y: int, x3: int, y3: int, h: int, m: int, r: int, j: int, e: int, l: int, p: int, v: int,
                    f: int)
    requires 2 * h == r * m + j * p && f == (x - x3) * v - e * p
    requires (y3 + y) * (2 * y) == m * (x - x3) + l * p
    ensures 2 * (h * f)
            == 2 * (y3 * (y * (r * v))) + 2 * ((y * y) * (r * v)) + (-((r * v) * l) + j * f - (r * m) * e) * p
  {
    SlopeProduct(2 * h, r * m, j, x - x3, v, e, p);
    assert (r * m) * ((x - x3) * v) == (r * v) * (m * (x - x3));
    SlopeReplaced(y, y3, m * (x - x3), r * v, l, p);
    assert 2 * (h * f) == (2 * h) * f;
  }

  lemma SlopeProduct(g: int, c: int, j: int, dx: int, v: int, e: int, p: int)
    requires g == c + j * p
    ensures g * (dx * v - e * p) == c * (dx * v) - (c * e) * p + (j * (dx * v - e * p)) * p
  {
    var f := dx * v - e * p;
    assert g * f == c * f + (j * p) * f;
  }

  lemma SlopeReplaced(y: int, y3: int, t: int, w: int, l: int, p: int)
    requires (y3 + y) * (2 * y) == t + l * p
    ensures w * t == 2 * (y3 * (y * w)) + 2 * ((y * y) * w) - (w * l) * p
  {
    assert w * ((y3 + y) * (2 * y)) == 2 * (y3 * (y * w)) + 2 * ((y * y) * w);
    assert w * (l * p) == (w * l) * p;
  }

  /** The abscissa of the doubled point, for any odd modulus. */
  lemma TangentX(x: int, y: int, x3: int, z: int, h: int, p: int)
    requires p > 0 && p % 2 == 1
    requires var m := 3 * (x * x) - 3; Cong((x3 + 2 * x) * (4 * (y * y)), m * m, p)
    requires Cong(2 * h, 3 * ((x * (z * z) + z * z) * (x * (z * z) - z * z)), p)
    ensures var w := (y * Cube(z)) * z; Cong(TwiceX(x * (z * z), y * Cube(z), h), x3 * (w * w), p)
  {
    hide Cube;
    var q, m, b := z * z, 3 * (x * x) - 3, y * Cube(z);
    var r := q * q;
    var j := CongWitness(2 * h, 3 * ((x * q + q) * (x * q - q)), p);
    var k := CongWitness((x3 + 2 * x) * (4 * (y * y)), m * m, p);
    Powers(x, y, z);
    QuadrupleX(x, y, x3, h, m, r, j, k, p);
    var t, g := TwiceX(x * q, b, h), x3 * ((b * z) * (b * z));
    assert t == h * h - 2 * ((x * q) * (b * b));
    CongIntro(4 * t, 4 * g, p, -((r * r) * k) + j * (r * m + 2 * h));
    assert 4 * t == 2 * (2 * t) && 4 * g == 2 * (2 * g);
    CancelTwo(2 * t, 2 * g, p);
    CancelTwo(t, g, p);
  }

  lemma TangentY(x: int, y: int, x3: int, y3: int, z: int, h: int, p: int)
    requires p > 0 && p % 2 == 1
    requires var m := 3 * (x * x) - 3;
             Cong((x3 + 2 * x) * (4 * (y * y)), m * m, p) && Cong((y3 + y) * (2 * y), m * (x - x3), p)
    requires Cong(2 * h, 3 * ((x * (z * z) + z * z) * (x * (z * z) - z * z)), p)
    ensures Cong(TwiceY(x * (z * z), y * Cube(z), h), y3 * Cube((y * Cube(z)) * z), p)
  {
    hide Cube, TwiceX;
    TangentX(x, y, x3, z, h, p);
    var q, m, b := z * z, 3 * (x * x) - 3, y * Cube(z);
    var r, tx := q * q, TwiceX(x * q, b, h);
    var j := CongWitness(2 * h, 3 * ((x * q + q) * (x * q - q)), p);
    var e := CongWitness(tx, x3 * ((b * z) * (b * z)), p);
    var l := CongWitness((y3 + y) * (2 * y), m * (x - x3), p);
    Powers(x, y, z);
    DoubleY(x, y, x3, y3, h, m, r, j, e, l, p, tx);
    CubeIs(b * z);
    var t, g := TwiceY(x * q, b, h), y3 * Cube(b * z);
    CongIntro(2 * t, 2 * g, p, -((y * y) * (r * (r * r)) * l) + j * ((x * (y * y)) * (r * r) - tx) - (r * m) * e);
    CancelTwo(t, g, p);
  }

  /** double_jacobian_default: the tangent's second point, under the factor y z^4. */
  lemma DoubleRefines(x: int, y: int, x3: int, y3: int, z: int)
    requires IsTangent(x, y, x3, y3) && M(z) != 0
    ensures var w := (y * Cube(z)) * z;
            Double(Jacobian(RepX(x, z), RepY(y, z), M(z))) == Jacobian(RepX(x3, w), RepY(y3, w), M(w))
  {
    hide M, Double, TwiceX, TwiceY, Cube;
    var q, b := z * z, y * Cube(z);
    var w := b * z;
    var h := DoubleExact(x * q, b, z);
    TangentX(x, y, x3, z, h, P);
    TangentY(x, y, x3, y3, z, h, P);
    MEqual(TwiceX(x * q, b, h), x3 * (w * w));
    MEqual(TwiceY(x * q, b, h), y3 * Cube(w));
  }
}
