/** The checks on points and keys that come from outside: uECC_valid_point, uECC_valid_public_key,
    uECC_compute_public_key. */
module ValidPoint {
  import opened Words
  import opened Arith
  import opened Vli
  import opened Bytes
  import opened P256
  import opened Field
  import opened Closure
  import opened CurveGroup
  import opened EccPoint
  import opened Keys

  /** The constant curve->b. */
  method CurveB() returns (b: array<Word>)
    ensures fresh(b) && b.Length == 8 && V(b) == B
  {
    b := new Word[8] [0x27D2604B, 0x3BCE3C3E, 0xCC53B0F6, 0x651D06B0, 0x769886BC, 0xB3EBBD55, 0xAA3A93E7, 0x5AC635D8];
    BValue();
    hide Val;
    Val8(b[..]);
  }

  /** The constant 3, which is -a. */
  method Three() returns (t: array<Word>)
    ensures fresh(t) && t.Length == 8 && V(t) == 3
  {
    t := new Word[8] [3, 0, 0, 0, 0, 0, 0, 0];
    hide Val;
    Val8(t[..]);
  }

  lemma SmallResidues()
    ensures M(3) == 3 && M(B) == B
  {
    hide M;
    BaseBelow();
    MIdem(3);
    MIdem(B);
  }

  lemma MMulRight(a: int, x: int)
    ensures FMul(a, x) == FMul(a, M(x))
  {
    MCong(x);
    CongRefl(a, P);
    CongMul(a, a, x, M(x), P);
    MEqual(a * x, a * M(x));
  }

  lemma CubicIs(x: int)
    ensures (x * x - 3) * x + B == Cubic(x, -3, B)
  {
    assert (x * x - 3) * x == x * (x * x) - 3 * x;
  }

  /** x_side_default. */
  method XSide(result: array<Word>, x: array<Word>)
    requires result.Length == x.Length == 8 && result != x
    modifies result
    ensures V(result) == M(Cubic(V(x), -3, B))
  {
    hide *;
    ghost var vx: int := V(x);
    var three := Three();
    var b := CurveB();
    SmallConstants();
    ModSquareFast(result, x);
    ModSubP(result, result, three);
    ModMultFast(result, result, x);
    ModAddP(result, result, b);
    ProductIs(vx, vx);
    MSub(vx * vx, 3);
    SmallResidues();
    MMul(vx * vx - 3, vx);
    MMulRight(M(vx * vx - 3), vx);
    MAdd((vx * vx - 3) * vx, B);
    CubicIs(vx);
  }

  lemma SmallConstants()
    ensures 3 < P && B < P
  {
    BaseBelow();
  }

  lemma CurveEquation(x: nat, y: nat)
    requires x < P && y < P
    ensures FMul(y, y) == M(Cubic(x, -3, B)) <==> OnCurve(Affine(x, y))
  {
    hide Cong, M;
    MEqual(y * y, Cubic(x, -3, B));
    assert Alpha(1) == -3 && Beta(1) == B;
  }

  /** uECC_valid_point answers 0 exactly for the finite points of the curve. */
  method CheckPoint(x: array<Word>, y: array<Word>) returns (r: int)
    requires x.Length == y.Length == 8
    ensures r == 0 <==> OnCurve(Affine(V(x), V(y)))
    ensures r == -1 <==> V(x) == 0 && V(y) == 0
    ensures r == -2 <==> V(x) >= P || V(y) >= P
    ensures -3 <= r <= 0
  {
    hide Val, Pow, Cong, M, Cubic, Alpha, Beta;
    var zero := EccPointIsZero(x, y);
    ZeroNotOnCurve();
    SmallConstants();
    if zero {
      return -1;
    }
    var p := CurveP();
    PValue();
    assert p[..8] == p[..] && x[..8] == x[..] && y[..8] == y[..];
    var cx := VliCmpUnsafe(p, x, 8);
    var cy := VliCmpUnsafe(p, y, 8);
    if cx != 1 || cy != 1 {
      return -2;
    }
    CurveEquation(V(x), V(y));
    var tmp1, tmp2 := new Word[8], new Word[8];
    ModSquareFast(tmp1, y);
    XSide(tmp2, x);
    assert tmp1[..8] == tmp1[..] && tmp2[..8] == tmp2[..];
    var diff := VliEqual(tmp1, tmp2, 8);
    r := if diff != 0 then -3 else 0;
  }

  /** uECC_valid_public_key answers 0 exactly for the finite points of the curve other than the base point, and says
      why for every other key: -3 is left for the points off the curve. */
  method CheckPublicKey(publicKey: array<Byte>) returns (r: int)
    requires publicKey.Length == 64
    ensures r == 0 <==> OnCurve(PointOf(publicKey[..])) && PointOf(publicKey[..]) != G()
    ensures r == -1 <==> PointOf(publicKey[..]) == Affine(0, 0)
    ensures r == -2 <==> PointOf(publicKey[..]).x >= P || PointOf(publicKey[..]).y >= P
    ensures r == -4 <==> PointOf(publicKey[..]) == G()
    ensures -4 <= r <= 0
  {
    hide Val, OnCurve, WordsOf;
    var x, y := new Word[8], new Word[8];
    assert publicKey[..][0..32] == publicKey[0..32] && publicKey[..][32..64] == publicKey[32..64];
    ReadNumber(x, publicKey, 0);
    ReadNumber(y, publicKey, 32);
    r := CheckNotBase(x, y);
  }

  /** The same on words: the base point is refused first. */
  method CheckNotBase(x: array<Word>, y: array<Word>) returns (r: int)
    requires x.Length == y.Length == 8
    ensures r == 0 <==> OnCurve(Affine(V(x), V(y))) && Affine(V(x), V(y)) != G()
    ensures r == -1 <==> V(x) == 0 && V(y) == 0
    ensures r == -2 <==> V(x) >= P || V(y) >= P
    ensures r == -4 <==> Affine(V(x), V(y)) == G()
    ensures -4 <= r <= 0
  {
    hide Val, OnCurve;
    BaseBelow();
    var gx, gy := CurveG();
    assert x[..8] == x[..] && y[..8] == y[..] && gx[..8] == gx[..] && gy[..8] == gy[..];
    var cx := VliCmpUnsafe(x, gx, 8);
    var cy := VliCmpUnsafe(y, gy, 8);
    if cx == 0 && cy == 0 {
      return -4;
    }
    r := CheckPoint(x, y);
  }

  /** uECC_compute_public_key: of the private keys in the range [1, n - 1] it refuses 1, n - 2 and n - 1. */
  method ComputePublicKey(privateKey: array<Byte>, publicKey: array<Byte>, ghost add: Adder) returns (ok: bool)
    requires privateKey.Length == 32 && publicKey.Length == 64
    modifies publicKey
    ensures var d := old(NumberOf(privateKey[..]));
            GroupAssumed(add) ==>
              && (ok <==> 1 < d < N - 2)
              && (ok ==> PointOf(publicKey[..]) == Mul(add, d, G()))
    ensures !ok ==> publicKey[..] == old(publicKey[..])
  {
    hide Val, OnCurve, WordsOf, GroupAssumed, Mul, Pow;
    var priv := new Word[8];
    var px, py := new Word[8], new Word[8];
    assert privateKey[0..32] == privateKey[..];
    ReadNumber(priv, privateKey, 0);
    ghost var d := V(priv);
    UsableRange(d);
    var n := CurveN();
    NValue();
    assert n[..8] == n[..] && priv[..8] == priv[..];
    var zero := VliIsZero(priv, 8);
    if zero {
      return false;
    }
    var cmp := VliCmp(n, priv, 8);
    if cmp != 1 {
      return false;
    }
    ok := EccPointComputePublicKey(px, py, priv, add);
    if !ok {
      return;
    }
    WriteNumber(publicKey, 0, px);
    ghost var front := publicKey[0..32];
    WriteNumber(publicKey, 32, py);
    assert publicKey[0..32] == front;
    assert publicKey[..][0..32] == publicKey[0..32] && publicKey[..][32..64] == publicKey[32..64];
  }

  lemma UsableRange(d: nat)
    ensures 0 < d < N ==> (Usable(d) <==> 1 < d < N - 2)
  {
    if d < N {
      DivUnique(d, N, 0, d);
    }
  }
}
