/** Public keys and the Diffie-Hellman secret. */
module Keys {
  import opened Words
  import opened Arith
  import opened Primes
  import opened Vli
  import opened Bytes
  import opened P256
  import opened Field
  import opened Closure
  import opened CurveGroup
  import opened Scalars
  import opened EccPoint
  import opened RandomInt

  const GX: nat := 0x6B17D1F2_E12C4247_F8BCE6E5_63A440F2_77037D81_2DEB33A0_F4A13945_D898C296
  const GY: nat := 0x4FE342E2_FE1A7F9B_8EE7EB4A_7C0F9E16_2BCE3357_6B315ECE_CBB64068_37BF51F5

  /** The base point. */
  function G(): Point { Affine(GX, GY) }

  method CurveG() returns (gx: array<Word>, gy: array<Word>)
    ensures fresh(gx) && fresh(gy) && gx != gy && gx.Length == gy.Length == 8
    ensures V(gx) == GX && V(gy) == GY
  {
    gx := new Word[8] [0xD898C296, 0xF4A13945, 0x2DEB33A0, 0x77037D81, 0x63A440F2, 0xF8BCE6E5, 0xE12C4247, 0x6B17D1F2];
    gy := new Word[8] [0x37BF51F5, 0xCBB64068, 0x6B315ECE, 0x2BCE3357, 0x7C0F9E16, 0x8EE7EB4A, 0xFE1A7F9B, 0x4FE342E2];
    hide Val;
    Val8(gx[..]);
    Val8(gy[..]);
  }

  lemma BaseOnCurve()
    ensures OnCurve(G()) && GX != 0
  {
    hide Cong, Cubic, Alpha, Beta;
    BaseBelow();
    BaseEquation(GX, GY, B, P);
    OneIs();
  }

  lemma BaseBelow()
    ensures GX < P && GY < P && 0 < B < P
    ensures P == 0xFFFFFFFF_00000001_00000000_00000000_00000000_FFFFFFFF_FFFFFFFF_FFFFFFFF
    ensures B == 0x5AC635D8_AA3A93E7_B3EBBD55_769886BC_651D06B0_CC53B0F6_3BCE3C3E_27D2604B
  {
    PValue();
    BValue();
  }

  lemma OneIs()
    ensures Alpha(1) == -3 && Beta(1) == B
  {
  }

  lemma BaseEquation(x: int, y: int, b: int, p: int)
    requires x == 0x6B17D1F2_E12C4247_F8BCE6E5_63A440F2_77037D81_2DEB33A0_F4A13945_D898C296
    requires y == 0x4FE342E2_FE1A7F9B_8EE7EB4A_7C0F9E16_2BCE3357_6B315ECE_CBB64068_37BF51F5
    requires p == 0xFFFFFFFF_00000001_00000000_00000000_00000000_FFFFFFFF_FFFFFFFF_FFFFFFFF
    requires b == 0x5AC635D8_AA3A93E7_B3EBBD55_769886BC_651D06B0_CC53B0F6_3BCE3C3E_27D2604B
    ensures Cong(y * y, Cubic(x, -3, b), p)
  {
    CongIntro(y * y, Cubic(x, -3, b), p, (y * y - Cubic(x, -3, b)) / p);
  }

  /** The scalars that the ladder serves: all but 0, 1, -1 and -2 modulo the order. */
  predicate Usable(d: nat) {
    var r := d % N;
    r != 0 && r != 1 && r != N - 1 && r != N - 2
  }

  /** A regularised scalar is congruent to the key, and exceptional exactly when the key is unusable. */
  lemma RegularisedScalar(d: nat, k: nat)
    requires d < TOP && TOP <= k && k == (if d + N >= TOP then d + N else d + 2 * N)
    ensures k - TOP < N
    ensures Cong(k, d, N)
    ensures Exceptional(k) <==> !Usable(d)
  {
    var i := if k == d + N then 1 else 2;
    CongIntro(k, d, N, i);
    if d < N {
      DivUnique(d, N, 0, d);
    } else {
      DivUnique(d, N, 1, d - N);
    }
  }

  /** d p where the ladder can compute it, and zero where it cannot. */
  ghost predicate KeyResult(add: Adder, p: Point, d: nat, x: nat, y: nat) {
    if p.Affine? && p.x != 0 && Usable(d) then Affine(x, y) == Mul(add, d, p) else x == 0 && y == 0
  }

  ghost predicate GroupAssumed(add: Adder) {
    IsCurveGroup(add) && ConstantsPrime()
  }

  lemma ResultOfKey(add: Adder, p: Point, d: nat, k: nat, x: nat, y: nat)
    requires GroupAssumed(add) && OnCurve(p) && p.Affine?
    requires d < TOP && TOP <= k && k == (if d + N >= TOP then d + N else d + 2 * N)
    requires Assumed(add, p, k - TOP) ==> Result(add, p, k, x, y)
    ensures KeyResult(add, p, d, x, y)
  {
    hide IsCurveGroup, ConstantsPrime, OnCurve, Usable, Mul, Exceptional;
    RegularisedScalar(d, k);
    MulCong(add, k, d, p);
  }

  lemma ZeroNotOnCurve()
    ensures !OnCurve(Affine(0, 0))
  {
    hide Cong, Alpha, Beta;
    BaseBelow();
    if Cong(0, B, P) {
      CongSmall(0, B, P);
      assert false;
    }
    OneIs();
    assert Cubic(0, -3, B) == B;
  }

  /** The result is zero exactly when the ladder could not compute it. */
  lemma ZeroResult(add: Adder, p: Point, d: nat, x: nat, y: nat)
    requires GroupAssumed(add) && OnCurve(p) && p.Affine? && KeyResult(add, p, d, x, y)
    ensures x == 0 && y == 0 <==> p.x == 0 || !Usable(d)
  {
    hide IsCurveGroup, ConstantsPrime, OnCurve, Usable, Mul;
    MulOnCurve(add, d, p);
    ZeroNotOnCurve();
  }

  method EccPointIsZero(x: array<Word>, y: array<Word>) returns (r: bool)
    requires x.Length == y.Length == 8
    ensures r <==> V(x) == 0 && V(y) == 0
  {
    hide Val;
    assert x[..8] == x[..] && y[..8] == y[..];
    var zx := VliIsZero(x, 8);
    var zy := VliIsZero(y, 8);
    r := zx && zy;
  }

  /** Regularises the scalar in scratch and multiplies: d times the point, or zero. */
  method RegularMult(resultX: array<Word>, resultY: array<Word>, pointX: array<Word>, pointY: array<Word>,
                     k: array<Word>, tmp1: array<Word>, tmp2: array<Word>, ghost add: Adder)
    requires resultX.Length == resultY.Length == pointX.Length == pointY.Length == 8
    requires k.Length == tmp1.Length == tmp2.Length == 8
    requires resultX != resultY && tmp1 != tmp2
    requires tmp1 !in {resultX, resultY, pointX, pointY} && tmp2 !in {resultX, resultY, pointX, pointY}
    modifies resultX, resultY, tmp1, tmp2
    ensures var p := Affine(old(V(pointX)), old(V(pointY)));
            GroupAssumed(add) && OnCurve(p) ==> KeyResult(add, p, old(V(k)), V(resultX), V(resultY))
  {
    hide Val, Pow, Assumed, GroupAssumed, Result, KeyResult, OnCurve;
    ghost var d, p := V(k), Affine(V(pointX), V(pointY));
    ValBelowTop(k[..]);
    var carry := RegularizeK(k, tmp1, tmp2);
    var scalar := if carry then tmp1 else tmp2;
    ghost var s := V(scalar);
    EccPointMult(resultX, resultY, pointX, pointY, scalar, null, add);
    if GroupAssumed(add) && OnCurve(p) {
      ResultOfKey(add, p, d, TOP + s, V(resultX), V(resultY));
    }
  }

  lemma ValBelowTop(s: seq<Word>)
    requires |s| == 8
    ensures Val(s) < TOP
  {
    Pow8();
  }

  /** public = d G. It fails exactly for the keys 0, 1, -1 and -2 modulo the order. */
  method EccPointComputePublicKey(resultX: array<Word>, resultY: array<Word>, privateKey: array<Word>, ghost add: Adder)
    returns (ok: bool)
    requires resultX.Length == resultY.Length == privateKey.Length == 8 && resultX != resultY
    modifies resultX, resultY
    ensures var d := old(V(privateKey));
            GroupAssumed(add) ==>
              && (ok <==> Usable(d))
              && (ok ==> Affine(V(resultX), V(resultY)) == Mul(add, d, G()))
              && (!ok ==> V(resultX) == 0 && V(resultY) == 0)
  {
    hide Val, GroupAssumed, OnCurve, Mul, Usable;
    ghost var d := V(privateKey);
    var tmp1, tmp2 := new Word[8], new Word[8];
    var gx, gy := CurveG();
    BaseOnCurve();
    RegularMult(resultX, resultY, gx, gy, privateKey, tmp1, tmp2, add);
    var zero := EccPointIsZero(resultX, resultY);
    if GroupAssumed(add) {
      ZeroResult(add, G(), d, V(resultX), V(resultY));
    }
    ok := !zero;
  }

  /** The point two coordinate strings stand for. */
  function PointOf(bytes: seq<Byte>): Point
    requires |bytes| == 64
  {
    Affine(NumberOf(bytes[0..32]), NumberOf(bytes[32..64]))
  }

  /** The first string is the abscissa. */
  lemma PointOfParts(x: seq<Byte>, y: seq<Byte>)
    requires |x| == |y| == 32
    ensures PointOf(x + y) == Affine(NumberOf(x), NumberOf(y))
  {
    hide NumberOf;
    assert (x + y)[0..32] == x && (x + y)[32..64] == y;
  }

  method ReadNumber(native: array<Word>, bytes: array<Byte>, from: nat)
    requires native.Length == 8 && from + 32 <= bytes.Length
    modifies native
    ensures V(native) == NumberOf(bytes[from..from + 32])
  {
    hide Val;
    VliBytesToNative(native, bytes, from, 32);
    assert native[..8] == native[..];
  }

  method WriteNumber(bytes: array<Byte>, from: nat, native: array<Word>)
    requires native.Length == 8 && from + 32 <= bytes.Length
    modifies bytes
    ensures NumberOf(bytes[from..from + 32]) == V(native)
    ensures forall j :: 0 <= j < from || from + 32 <= j < bytes.Length ==> bytes[j] == old(bytes[j])
  {
    hide Val;
    VliNativeToBytes(bytes, from, 32, native);
    WholeRoundTrip(native[..]);
  }

  /** What uECC_shared_secret leaves: the abscissa of d Q, or zero and failure. */
  ghost predicate SecretResult(add: Adder, q: Point, d: nat, ok: bool, secret: nat) {
    && (ok <==> q.Affine? && q.x != 0 && Usable(d))
    && (if ok then Mul(add, d, q).Affine? && secret == Mul(add, d, q).x else secret == 0)
  }

  lemma SecretOfKey(add: Adder, q: Point, d: nat, x: nat, y: nat)
    requires GroupAssumed(add) && OnCurve(q) && q.Affine? && KeyResult(add, q, d, x, y)
    ensures SecretResult(add, q, d, !(x == 0 && y == 0), x)
  {
    hide GroupAssumed, OnCurve, Usable, Mul;
    ZeroResult(add, q, d, x, y);
  }

  lemma PTopWord()
    ensures Val(PWords()) == P && PWords()[7] != 0
  {
    PValue();
  }

  /** The scalar is regularised in place; the buffer it does not use receives the random initial Z. */
  method SecretInScratch(pubX: array<Word>, pubY: array<Word>, priv: array<Word>, tmp: array<Word>, rng: Random,
                         ghost add: Adder)
    returns (ok: bool)
    requires pubX.Length == pubY.Length == priv.Length == tmp.Length == 8
    requires pubX != pubY && pubX != priv && pubX != tmp && pubY != priv && pubY != tmp && priv != tmp
    modifies pubX, pubY, priv, tmp
    ensures ok <==> !GivesUp(rng, P)
    ensures var q := Affine(old(V(pubX)), old(V(pubY)));
            ok && GroupAssumed(add) && OnCurve(q) ==> KeyResult(add, q, old(V(priv)), V(pubX), V(pubY))
  {
    hide Val, Pow, Assumed, GroupAssumed, Result, KeyResult, OnCurve, Succeeds;
    ghost var d, q := V(priv), Affine(V(pubX), V(pubY));
    ValBelowTop(priv[..]);
    var carry := RegularizeK(priv, priv, tmp);
    var scalar, spare := if carry then priv else tmp, if carry then tmp else priv;
    ghost var s := V(scalar);
    var initialZ: array?<Word> := null;
    ok := true;
    if rng.Set? {
      var p := CurveP();
      PTopWord();
      ok := GenerateRandom(spare, rng, p);
      if !ok {
        return;
      }
      initialZ := spare;
    }
    EccPointMult(pubX, pubY, pubX, pubY, scalar, initialZ, add);
    if GroupAssumed(add) && OnCurve(q) {
      ResultOfKey(add, q, d, TOP + s, V(pubX), V(pubY));
    }
  }

  method SharedSecret(publicKey: array<Byte>, privateKey: array<Byte>, secret: array<Byte>, rng: Random,
                      ghost add: Adder)
    returns (ok: bool)
    requires publicKey.Length == 64 && privateKey.Length == 32 && secret.Length == 32
    modifies secret
    ensures GivesUp(rng, P) ==> !ok && secret[..] == old(secret[..])
    ensures var q, d := PointOf(old(publicKey[..])), NumberOf(old(privateKey[..]));
            !GivesUp(rng, P) && GroupAssumed(add) && OnCurve(q) ==> SecretResult(add, q, d, ok, NumberOf(secret[..]))
  {
    hide *;
    var priv, tmp := new Word[8], new Word[8];
    var pubX, pubY := new Word[8], new Word[8];
    ok := SecretInBuffers(publicKey, privateKey, secret, rng, priv, tmp, pubX, pubY, add);
  }

  lemma PointIs(bytes: seq<Byte>)
    requires |bytes| == 64
    ensures PointOf(bytes) == Affine(NumberOf(bytes[0..32]), NumberOf(bytes[32..64]))
  {
    hide NumberOf;
  }

  method SecretInBuffers(publicKey: array<Byte>, privateKey: array<Byte>, secret: array<Byte>, rng: Random,
                         priv: array<Word>, tmp: array<Word>, pubX: array<Word>, pubY: array<Word>, ghost add: Adder)
    returns (ok: bool)
    requires publicKey.Length == 64 && privateKey.Length == 32 && secret.Length == 32
    requires priv.Length == tmp.Length == pubX.Length == pubY.Length == 8
    requires priv != tmp && priv != pubX && priv != pubY && tmp != pubX && tmp != pubY && pubX != pubY
    modifies secret, priv, tmp, pubX, pubY
    ensures GivesUp(rng, P) ==> !ok && secret[..] == old(secret[..])
    ensures var q, d := PointOf(old(publicKey[..])), NumberOf(old(privateKey[..]));
            !GivesUp(rng, P) && GroupAssumed(add) && OnCurve(q) ==> SecretResult(add, q, d, ok, NumberOf(secret[..]))
  {
    hide *;
    PointIs(publicKey[..]);
    ghost var q := PointOf(publicKey[..]);
    assert publicKey[..][0..32] == publicKey[0..32] && publicKey[..][32..64] == publicKey[32..64];
    assert privateKey[0..32] == privateKey[..];
    ReadNumber(priv, privateKey, 0);
    ReadNumber(pubX, publicKey, 0);
    ReadNumber(pubY, publicKey, 32);
    ghost var d := V(priv);
    ok := SecretInScratch(pubX, pubY, priv, tmp, rng, add);
    if ok {
      WriteNumber(secret, 0, pubX);
      assert secret[0..32] == secret[..];
      var zero := EccPointIsZero(pubX, pubY);
      if GroupAssumed(add) && OnCurve(q) {
        SecretOfKey(add, q, d, V(pubX), V(pubY));
      }
      ok := !zero;
    }
  }

  lemma UsableNumbers(d: nat)
    requires Usable(d)
    ensures d >= 1 && !Divides(N, d) && !Divides(N, 1) && !Divides(N, d + 1) && !Divides(N, d - 1)
  {
    hide Divides;
    var k, r := d / N, d % N;
    assert d == k * N + r;
    SmallNotDivided(1, N);
    DividesMod(N, d);
    DividesMod(N, d + 1);
    DividesMod(N, d - 1);
    DivUnique(d + 1, N, k, r + 1);
    DivUnique(d - 1, N, k, r - 1);
  }


  lemma UsableFinite(add: Adder, d: nat, p: Point)
    requires GroupAssumed(add) && OnCurve(p) && p.Affine? && Usable(d)
    ensures Mul(add, d, p).Affine?
  {
    hide IsCurveGroup, ConstantsPrime, OnCurve, Mul, Usable, Divides;
    UsableNumbers(d);
    OrderExact(add, d, p);
  }

  /** A point of the curve whose abscissa is zero. */
  const ZERO_X_ORDINATE: nat := 0x66485C78_0E2F83D7_2433BD5D_84A06BB6_541C2AF3_1DAE8717_28BF856A_174F93F4

  /** With it as public key no key agrees on a secret, although every usable key has a finite multiple of it. */
  lemma NoSecretAtZero(add: Adder, d: nat, ok: bool, secret: nat)
    requires SecretResult(add, Affine(0, ZERO_X_ORDINATE), d, ok, secret)
    ensures OnCurve(Affine(0, ZERO_X_ORDINATE)) && Affine(0, ZERO_X_ORDINATE) != G() && !ok && secret == 0
    ensures GroupAssumed(add) && Usable(d) ==> Mul(add, d, Affine(0, ZERO_X_ORDINATE)).Affine?
  {
    hide IsCurveGroup, ConstantsPrime, OnCurve, Usable, Mul;
    ZeroXOnCurve();
    if GroupAssumed(add) && Usable(d) {
      UsableFinite(add, d, Affine(0, ZERO_X_ORDINATE));
    }
  }

  lemma ZeroXOnCurve()
    ensures OnCurve(Affine(0, ZERO_X_ORDINATE))
  {
    hide Cong, Cubic, Alpha, Beta;
    BaseBelow();
    ZeroXEquation(0, ZERO_X_ORDINATE, B, P);
    OneIs();
  }

  lemma ZeroXEquation(x: int, y: int, b: int, p: int)
    requires x == 0 && y == ZERO_X_ORDINATE
    requires p == 0xFFFFFFFF_00000001_00000000_00000000_00000000_FFFFFFFF_FFFFFFFF_FFFFFFFF
    requires b == 0x5AC635D8_AA3A93E7_B3EBBD55_769886BC_651D06B0_CC53B0F6_3BCE3C3E_27D2604B
    ensures Cong(y * y, Cubic(x, -3, b), p)
  {
    CongIntro(y * y, Cubic(x, -3, b), p, (y * y - Cubic(x, -3, b)) / p);
  }

  /** Both sides derive the same secret, for whatever initial Z each of them drew. */
  lemma SecretsAgree(add: Adder, a: nat, b: nat, okA: bool, secretA: nat, okB: bool, secretB: nat)
    requires GroupAssumed(add) && Usable(a) && Usable(b)
    requires SecretResult(add, Mul(add, b, G()), a, okA, secretA)
    requires SecretResult(add, Mul(add, a, G()), b, okB, secretB)
    ensures okA && okB ==> secretA == secretB
    ensures Mul(add, a, G()).Affine? && Mul(add, b, G()).Affine?
    ensures okA <==> Mul(add, b, G()).x != 0
    ensures okB <==> Mul(add, a, G()).x != 0
  {
    hide IsCurveGroup, ConstantsPrime, OnCurve, Usable, Mul;
    BaseOnCurve();
    UsableFinite(add, a, G());
    UsableFinite(add, b, G());
    MulMul(add, a, b, G());
    MulMul(add, b, a, G());
    assert a * b == b * a;
  }
}
