/** Recovering the inverse of the hidden Z coordinate at the end of the ladder. */
module FinalZ {
  import opened Arith
  import opened P256
  import opened Field
  import opened Formulas
  import opened Refine
  import opened CurveGroup
  import opened Ladder

  /** Multiplying by the inverse factor gives the affine coordinates. */
  lemma ApplyInverse(x: nat, y: nat, w: int, z: int)
    requires x < P && y < P && Cong(z * w, 1, P)
    ensures ApplyX(RepX(x, w), M(z)) == x && ApplyY(RepY(y, w), M(z)) == y
  {
    hide M, Cong, Cube;
    MMul(z, z);
    MMul(z * z, z);
    MMul(x * (w * w), z * z);
    MMul(y * Cube(w), (z * z) * z);
    InverseNumbers(x, y, w, z);
    CongMul(z * w, 1, z * w, 1, P);
    CongMul(z * w, 1, (z * w) * (z * w), 1 * 1, P);
    CongRefl(x, P);
    CongRefl(y, P);
    CongMul(x, x, (z * w) * (z * w), 1 * 1, P);
    CongMul(y, y, (z * w) * ((z * w) * (z * w)), 1 * (1 * 1), P);
    MEqual((x * (w * w)) * (z * z), x * (1 * 1));
    MEqual((y * Cube(w)) * ((z * z) * z), y * (1 * (1 * 1)));
    MIdem(x);
    MIdem(y);
  }

  lemma InverseNumbers(x: int, y: int, w: int, z: int)
    ensures (x * (w * w)) * (z * z) == x * ((z * w) * (z * w))
    ensures (y * Cube(w)) * ((z * z) * z) == y * ((z * w) * ((z * w) * (z * w)))
  {
    assert (w * w) * (z * z) == (z * w) * (z * w);
    assert Cube(w) * ((z * z) * z) == (z * w) * ((z * w) * (z * w));
  }

  /** The number to invert: xP * Yb * (X1 - X0), from the difference D = (dx, dy) and the abscissa sx of the sum. */
  function Denominator(bit: nat, dx: nat, dy: nat, sx: nat, px: nat): nat {
    FMul(FMul(if bit == 1 then FSub(dx, sx) else FSub(sx, dx), dy), px)
  }

  lemma DenominatorExact(bit: nat, p: Point, s: Point, w: int)
    requires bit <= 1 && p.Affine? && s.Affine? && p.x < P && p.y < P
    ensures var d := if bit == 1 then p else Neg(p);
            Denominator(bit, RepX(d.x, w), RepY(d.y, w), RepX(s.x, w), p.x)
            == M(((p.x * p.y) * (w * w)) * NextZ(s.x, p.x, w))
  {
    hide M, Cong, Cube;
    var d := if bit == 1 then p else Neg(p);
    var u, q := Cube(w), w * w;
    var e: int := if bit == 1 then p.y else 0 - p.y;
    MIdem(p.y);
    assert RepY(d.y, w) == M(e * u) by {
      MCong(e);
      CongRefl(u, P);
      CongMul(M(e), e, u, u, P);
      MEqual(M(e) * u, e * u);
    }
    var f: int := if bit == 1 then p.x * q - s.x * q else s.x * q - p.x * q;
    MSub(p.x * q, s.x * q);
    MSub(s.x * q, p.x * q);
    MMul(f, e * u);
    MIdem(p.x);
    MMul(f * (e * u), p.x);
    SignsCancel(p.x, p.y, s.x, q, u, e, f, bit);
  }

  lemma SignsCancel(px: int, py: int, sx: int, q: int, u: int, e: int, f: int, bit: nat)
    requires bit <= 1 && e == (if bit == 1 then py else 0 - py)
    requires f == if bit == 1 then px * q - sx * q else sx * q - px * q
    ensures (f * (e * u)) * px == ((px * py) * q) * (u * (px - sx))
  {
    assert f * e == (px * q - sx * q) * py;
    assert px * q - sx * q == q * (px - sx);
    assert (f * (e * u)) * px == ((f * e) * u) * px;
    assert ((q * (px - sx) * py) * u) * px == ((px * py) * q) * (u * (px - sx));
  }

  /** When the denominator is inverted, the recovered number is the inverse of the last factor. */
  lemma RecoverZ(bit: nat, p: Point, s: Point, w: nat, inv: nat)
    requires bit <= 1 && p.Affine? && s.Affine? && p.x < P && p.y < P
    requires var d := if bit == 1 then p else Neg(p);
             Cong(inv * Denominator(bit, RepX(d.x, w), RepY(d.y, w), RepX(s.x, w), p.x), 1, P)
    ensures Cong(FMul(FMul(inv, p.y), RepX(p.x, w)) * M(NextZ(s.x, p.x, w)), 1, P)
  {
    hide M, Cong, Cube;
    var q, t := w * w, NextZ(s.x, p.x, w);
    var den := ((p.x * p.y) * q) * t;
    DenominatorExact(bit, p, s, w);
    MCong(den);
    CongRefl(inv, P);
    CongMul(inv, inv, den, M(den), P);
    CongTrans(inv * den, inv * M(den), 1, P);
    var r := FMul(FMul(inv, p.y), RepX(p.x, w));
    MCong(inv * p.y);
    MCong(p.x * q);
    CongMul(M(inv * p.y), inv * p.y, M(p.x * q), p.x * q, P);
    MCong(M(inv * p.y) * M(p.x * q));
    CongTrans(r, M(inv * p.y) * M(p.x * q), (inv * p.y) * (p.x * q), P);
    MCong(t);
    CongMul(r, (inv * p.y) * (p.x * q), M(t), t, P);
    Rearranged(inv, p.x, p.y, q, t);
    CongTrans(r * M(t), ((inv * p.y) * (p.x * q)) * t, 1, P);
  }

  lemma Rearranged(i: int, x: int, y: int, q: int, t: int)
    ensures ((i * y) * (x * q)) * t == i * (((x * y) * q) * t)
  {
    assert (i * y) * (x * q) == i * ((x * y) * q);
  }

  /** The denominator vanishes exactly when the abscissa of the point does. */
  lemma DenominatorNonzero(add: Adder, bit: nat, p: Point, s: Point, w: nat)
    requires IsCurveGroup(add) && ConstantsPrime() && OnCurve(p) && p.Affine? && s.Affine?
    requires bit <= 1 && s.x < P && p.x != s.x && 0 < w < P
    ensures var d := if bit == 1 then p else Neg(p);
            Denominator(bit, RepX(d.x, w), RepY(d.y, w), RepX(s.x, w), p.x) == 0 <==> p.x == 0
  {
    hide *;
    PointBounds(p);
    NoOrderTwo(add, p);
    var t := NextZ(s.x, p.x, w);
    DenominatorExact(bit, p, s, w);
    if p.x == 0 {
      ZeroFactor(p.x, p.y, w * w, t);
    } else {
      NextFactor(s.x, p.x, w);
      MIdem(w);
      MIdem(p.x);
      MIdem(p.y);
      NonzeroProduct(w, w);
      NonzeroProduct(p.x, p.y);
      NonzeroProduct(p.x * p.y, w * w);
      NonzeroProduct((p.x * p.y) * (w * w), t);
    }
  }

  lemma PointBounds(p: Point)
    ensures OnCurve(p) && p.Affine? ==> p.x < P && p.y < P
  {
  }

  lemma ZeroFactor(x: int, y: int, q: int, t: int)
    requires x == 0
    ensures M(((x * y) * q) * t) == 0
  {
    assert ((x * y) * q) * t == 0;
    MIdem(0);
  }
}
