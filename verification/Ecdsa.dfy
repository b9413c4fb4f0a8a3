/** Signing and verifying. */
module Ecdsa {
  import opened Words
  import opened Arith
  import opened Vli
  import opened Mult
  import opened ModOps
  import opened Mmod
  import opened ModInv
  import opened Primes
  import opened Bytes
  import opened P256
  import opened Field
  import opened Formulas
  import opened CurveGroup
  import Ladder
  import opened Scalars
  import opened PointOps
  import opened EccPoint
  import opened Keys
  import opened FinalZ
  import opened RandomInt
  import opened Shamir

  /** result = left * right mod n. */
  method ModMultN(result: array<Word>, left: array<Word>, right: array<Word>)
    requires result.Length == left.Length == right.Length == 8
    modifies result
    ensures V(result) == Times(old(V(left)), old(V(right))) % N
  {
    hide Val, Pow, Times;
    var product := new Word[16];
    var n := CurveN();
    NValue();
    assert left[..8] == left[..] && right[..8] == right[..] && n[..8] == n[..];
    VliMult(product, left, right, 8);
    assert product[..16] == product[..];
    assert n[7] == NWords()[7] == 0xFFFFFFFF;
    VliMmod(result, product, n, 8);
    assert result[..8] == result[..];
  }

  /** result = left + right modulo n, perhaps unreduced when left is. */
  method ModAddN(result: array<Word>, left: array<Word>, right: array<Word>)
    requires result.Length == left.Length == right.Length == 8 && V(right) < N
    modifies result
    ensures Cong(V(result), old(V(left)) + old(V(right)), N)
  {
    hide Val, Cong;
    var n := CurveN();
    NValue();
    assert n[..8] == n[..] && left[..8] == left[..] && right[..8] == right[..];
    VliModAdd(result, left, right, n, 8);
    assert n[..8] == n[..] && result[..8] == result[..];
  }

  /** result = 1 / result mod n for a nonzero residue. */
  method InvertN(result: array<Word>)
    requires result.Length == 8
    modifies result
    ensures V(result) < N
    ensures IsPrime(N) && 0 < old(V(result)) < N ==> Cong(V(result) * old(V(result)), 1, N)
  {
    hide Val, Pow, Cong, IsPrime, IsGcd;
    var n := CurveN();
    NValue();
    NOdd();
    ghost var x := V(result);
    assert result[..8] == result[..] && n[..8] == n[..];
    ghost var g := VliModInv(result, result, n, 8);
    assert result[..8] == result[..] && n[..8] == n[..];
    if 0 < x < N && IsPrime(N) {
      GcdWithPrime(g, x, N);
    }
  }

  lemma NOdd()
    ensures N % 2 == 1 && N > 1 && N < TOP < 2 * N && P < 2 * N
  {
    PValue();
  }

  /** The message digest as a number: its first 32 bytes, not reduced modulo n. */
  function DigestOf(bits: seq<Byte>): nat {
    NumberOf(if |bits| > 32 then bits[..32] else bits)
  }

  /** The digest is read as a big-endian number, and what follows its first 32 bytes does not count. */
  lemma DigestOfNext(bits: seq<Byte>, b: Byte)
    ensures DigestOf([]) == 0
    ensures |bits| < 32 ==> DigestOf(bits + [b]) == 256 * DigestOf(bits) + b
    ensures |bits| >= 32 ==> DigestOf(bits + [b]) == DigestOf(bits)
  {
    hide NumberOf;
    NumberOfNext(bits, b);
    if |bits| >= 32 {
      assert (bits + [b])[..32] == bits[..32];
      assert bits[..|bits|] == bits;
    }
  }

  /** For a 256-bit order the digest is never shifted or reduced. */
  method Bits2Int(native: array<Word>, bits: array<Byte>, size: nat)
    requires native.Length == 8 && size <= bits.Length
    modifies native
    ensures V(native) == DigestOf(bits[..size])
  {
    hide Val, Pow;
    var bitsSize := if size > 32 then 32 else size;
    VliClear(native, 8);
    VliBytesToNative(native, bits, 0, bitsSize);
    assert bits[0..bitsSize] == if size > 32 then bits[..size][..32] else bits[..size];
    ZeroExtended(native[..], (bitsSize + 3) / 4);
  }

  lemma ZeroExtended(s: seq<Word>, k: nat)
    requires k <= |s| && forall j :: k <= j < |s| ==> s[j] == 0
    ensures Val(s) == Val(s[..k])
  {
    ValSplit(s, k);
    ZeroVal(s[k..]);
    assert 0 * Pow(k) == 0;
  }

  /** (r, s) is the signature of digest e under key d with nonce k: section 6.3 of ANS X9.62, FIPS 186-4. */
  ghost predicate Signed(add: Adder, d: nat, k: nat, e: nat, r: nat, s: nat) {
    var p := Mul(add, k, G());
    0 < k < N && p.Affine? && r == p.x && r != 0 && s < N && Cong(s * k, e + r * d, N)
  }

  /** When signing succeeds. */
  ghost predicate CanSign(add: Adder, k: nat, rng: Random) {
    var p := Mul(add, k, G());
    0 < k < N && Usable(k) && p.Affine? && p.x != 0 && !GivesUp(rng, N)
  }

  /** Multiplying by b before and after the inversion leaves the inverse of k. */
  lemma Unblinded(k: nat, b: nat, k1: nat, k2: nat, k3: nat)
    requires IsPrime(N) && 0 < k < N && 0 < b < N
    requires k1 == Times(k, b) % N && k3 == Times(k2, b) % N
    requires 0 < k1 ==> Cong(k2 * k1, 1, N)
    ensures Cong(k3 * k, 1, N)
  {
    hide IsPrime, Cong;
    SmallNotDivided(k, N);
    SmallNotDivided(b, N);
    DividesMod(N, k * b);
    if k1 == 0 {
      PrimeDividesProduct(k, b, N);
    }
    CongMod(k * b, N);
    CongMod(k2 * b, N);
    CongRefl(k, N);
    CongMul(k3, k2 * b, k, k, N);
    assert (k2 * b) * k == k2 * (k * b);
    CongRefl(k2, N);
    CongMul(k2, k2, k * b, k1, N);
    CongTrans(k3 * k, k2 * (k * b), k2 * k1, N);
    CongTrans(k3 * k, k2 * k1, 1, N);
  }

  /** s = (e + r d) / k. */
  lemma SignatureEquation(k: nat, k3: nat, d: nat, r: nat, e: nat, s1: nat, s2: nat, s3: nat)
    requires Cong(k3 * k, 1, N) && s1 == Times(d, r) % N && Cong(s2, e + s1, N) && s3 == Times(s2, k3) % N
    ensures Cong(s3 * k, e + r * d, N)
  {
    hide Cong;
    assert d * r == r * d;
    CongMod(d * r, N);
    CongRefl(e, N);
    CongAdd(e, e, s1, r * d, N);
    CongTrans(s2, e + s1, e + r * d, N);
    CongMod(s2 * k3, N);
    CongRefl(k, N);
    CongMul(s3, s2 * k3, k, k, N);
    assert (s2 * k3) * k == s2 * (k3 * k);
    CongMul(s2, e + r * d, k3 * k, 1, N);
    CongTrans(s3 * k, s2 * (k3 * k), (e + r * d) * 1, N);
  }

  /** k becomes 1 / k mod n, blinded on the way by a random factor or by 1. */
  method InvertNonce(k: array<Word>, tmp: array<Word>, rng: Random) returns (ok: bool)
    requires k.Length == tmp.Length == 8 && k != tmp
    modifies k, tmp
    ensures ok <==> !GivesUp(rng, N)
    ensures ok && IsPrime(N) && 0 < old(V(k)) < N ==> Cong(V(k) * old(V(k)), 1, N)
  {
    hide Val, Cong, IsPrime, Times;
    ghost var k0 := V(k);
    if rng.NotSet? {
      VliClear(tmp, 8);
      tmp[0] := 1;
      ValOfOne(tmp[..]);
      NOdd();
      ok := true;
    } else {
      var n := CurveN();
      NValue();
      ok := GenerateRandom(tmp, rng, n);
      if !ok {
        return;
      }
    }
    ghost var b := V(tmp);
    ModMultN(k, k, tmp);
    ghost var k1 := V(k);
    ModBelow(Times(k0, b), N);
    InvertN(k);
    ghost var k2 := V(k);
    ModMultN(k, k, tmp);
    if IsPrime(N) && 0 < k0 < N {
      Unblinded(k0, b, k1, k2, V(k));
    }
  }

  /** s = (e + r d) / k, from k already inverted. */
  method ComputeS(s: array<Word>, tmp: array<Word>, px: array<Word>, k: array<Word>, privateKey: array<Byte>,
                  messageHash: array<Byte>, hashSize: nat, ghost k0: nat)
    requires s.Length == tmp.Length == px.Length == k.Length == 8 && privateKey.Length == 32
    requires hashSize <= messageHash.Length
    requires s != tmp && s != px && s != k && tmp != px && tmp != k
    modifies s, tmp
    ensures V(s) < N
    ensures Cong(V(k) * k0, 1, N) ==>
              Cong(V(s) * k0, DigestOf(messageHash[..hashSize]) + V(px) * NumberOf(privateKey[..]), N)
  {
    hide *;
    assert privateKey[0..32] == privateKey[..];
    ReadNumber(tmp, privateKey, 0);
    ghost var d := V(tmp);
    SetP(s, px);
    ModMultN(s, tmp, s);
    ghost var s1 := V(s);
    NOdd();
    ModBelow(Times(d, V(px)), N);
    Bits2Int(tmp, messageHash, hashSize);
    ghost var e := V(tmp);
    ModAddN(s, tmp, s);
    ghost var s2 := V(s);
    ModMultN(s, s, k);
    ModBelow(Times(s2, V(k)), N);
    if Cong(V(k) * k0, 1, N) {
      SignatureEquation(k0, V(k), d, V(px), e, s1, s2, V(s));
    }
  }

  /** 0 < k < n. */
  method NonceInRange(k: array<Word>) returns (b: bool)
    requires k.Length == 8
    ensures b <==> 0 < V(k) < N
  {
    hide Val;
    var n := CurveN();
    NValue();
    assert n[..8] == n[..] && k[..8] == k[..];
    var zero := VliIsZero(k, 8);
    var cmp := VliCmp(n, k, 8);
    b := !zero && cmp == 1;
  }

  method IsZeroNumber(x: array<Word>) returns (b: bool)
    requires x.Length == 8
    ensures b <==> V(x) == 0
  {
    hide Val;
    assert x[..8] == x[..];
    b := VliIsZero(x, 8);
  }

  /** Signing on given buffers. */
  method SignInBuffers(privateKey: array<Byte>, messageHash: array<Byte>, hashSize: nat, k: array<Word>,
                       signature: array<Byte>, rng: Random, ghost add: Adder,
                       tmp: array<Word>, s: array<Word>, px: array<Word>, py: array<Word>) returns (ok: bool)
    requires privateKey.Length == 32 && signature.Length == 64 && hashSize <= messageHash.Length
    requires k.Length == tmp.Length == s.Length == px.Length == py.Length == 8
    requires k != tmp && k != s && k != px && k != py && tmp != s && tmp != px && tmp != py && s != px && s != py
             && px != py
    requires signature != privateKey && signature != messageHash
    modifies k, signature, tmp, s, px, py
    ensures GroupAssumed(add) ==> (ok <==> CanSign(add, old(V(k)), rng))
    ensures GroupAssumed(add) && ok ==>
              Signed(add, NumberOf(privateKey[..]), old(V(k)), DigestOf(messageHash[..hashSize]),
                     NumberOf(signature[0..32]), NumberOf(signature[32..64]))
  {
    hide *;
    ghost var k0 := V(k);
    var inRange := NonceInRange(k);
    if !inRange {
      NonceOutOfRange(add, k0, rng);
      return false;
    }
    var gx, gy := CurveG();
    BaseIs();
    RegularMult(px, py, gx, gy, k, tmp, s, add);
    var noR := IsZeroNumber(px);
    if GroupAssumed(add) {
      NonceResult(add, k0, V(px), V(py), rng);
    }
    if noR {
      return false;
    }
    ok := InvertNonce(k, tmp, rng);
    if !ok {
      return;
    }
    WriteNumber(signature, 0, px);
    ghost var first := signature[0..32];
    ComputeS(s, tmp, px, k, privateKey, messageHash, hashSize, k0);
    // s has at most 256 bits, so its length is never refused.
    WriteNumber(signature, 32, s);
    assert signature[0..32] == first;
    if GroupAssumed(add) {
      SignedIntro(add, NumberOf(privateKey[..]), k0, DigestOf(messageHash[..hashSize]), V(px), V(py), V(k), V(s));
    }
  }

  lemma BaseIs()
    ensures G() == Affine(GX, GY) && OnCurve(G())
  {
    BaseOnCurve();
  }

  lemma NonceOutOfRange(add: Adder, k: nat, rng: Random)
    requires k == 0 || k >= N
    ensures !CanSign(add, k, rng)
  {
  }

  lemma NonceResult(add: Adder, k: nat, x: nat, y: nat, rng: Random)
    requires GroupAssumed(add) && 0 < k < N && KeyResult(add, G(), k, x, y)
    ensures IsPrime(N)
    ensures CanSign(add, k, rng) <==> x != 0 && !GivesUp(rng, N)
    ensures x != 0 ==> Mul(add, k, G()).Affine? && Mul(add, k, G()).x == x
  {
    BaseOnCurve();
    hide IsCurveGroup, OnCurve, Mul, Usable;
  }

  lemma SignedIntro(add: Adder, d: nat, k: nat, e: nat, x: nat, y: nat, k3: nat, s: nat)
    requires GroupAssumed(add) && 0 < k < N && KeyResult(add, G(), k, x, y) && x != 0 && s < N
    requires Cong(s * k, e + x * d, N)
    ensures Signed(add, d, k, e, x, s)
  {
    NonceResult(add, k, x, y, NotSet);
  }

  /** uECC_sign_with_k. The nonce buffer is overwritten. */
  method SignWithK(privateKey: array<Byte>, messageHash: array<Byte>, hashSize: nat, k: array<Word>,
                   signature: array<Byte>, rng: Random, ghost add: Adder) returns (ok: bool)
    requires privateKey.Length == 32 && signature.Length == 64 && hashSize <= messageHash.Length && k.Length == 8
    requires signature != privateKey && signature != messageHash
    modifies k, signature
    ensures GroupAssumed(add) ==> (ok <==> CanSign(add, old(V(k)), rng))
    ensures GroupAssumed(add) && ok ==>
              Signed(add, NumberOf(privateKey[..]), old(V(k)), DigestOf(messageHash[..hashSize]),
                     NumberOf(signature[0..32]), NumberOf(signature[32..64]))
  {
    hide *;
    var tmp, s := new Word[8], new Word[8];
    var px, py := new Word[8], new Word[8];
    ok := SignInBuffers(privateKey, messageHash, hashSize, k, signature, rng, add, tmp, s, px, py);
  }

  /** The affine point (px, py) brought to the factor z and added to (rx, ry, z). */
  method MixedAddInPlace(rx: array<Word>, ry: array<Word>, z: array<Word>, tx: array<Word>, ty: array<Word>,
                         tz: array<Word>, px: array<Word>, py: array<Word>)
    requires rx.Length == ry.Length == z.Length == tx.Length == ty.Length == tz.Length == px.Length == py.Length == 8
    requires rx != ry && rx != z && rx != tx && rx != ty && rx != tz && ry != z && ry != tx && ry != ty && ry != tz
    requires z != tx && z != ty && z != tz && tx != ty && tx != tz && ty != tz
    requires px !in {rx, ry, z, tx, ty, tz} && py !in {rx, ry, z, tx, ty, tz}
    modifies rx, ry, z, tx, ty, tz
    ensures Jacobian(V(rx), V(ry), V(z)) == MixedAdd(old(Jacobian(V(rx), V(ry), V(z))), V(px), V(py))
    ensures V(rx) < P && V(ry) < P && V(z) < P
  {
    hide Val, M, CoZAdd, FMul, FSub;
    SetP(tx, px);
    SetP(ty, py);
    ApplyZ(tx, ty, z);
    ModSubP(tz, rx, tx);
    ghost var w := V(z);
    FMulResidues(w, V(tz));
    FMulResidues(w, FSub(V(rx), V(tx)));
    MIdem(FSub(V(rx), V(tx)));
    XYcZAdd(tx, ty, rx, ry);
    ModMultFast(z, z, tz);
  }

  /** u1 = e / s and u2 = r / s modulo n. */
  method ScalarsFor(u1: array<Word>, u2: array<Word>, z: array<Word>, r: array<Word>, s: array<Word>,
                    messageHash: array<Byte>, hashSize: nat)
    requires u1.Length == u2.Length == z.Length == r.Length == s.Length == 8 && hashSize <= messageHash.Length
    requires u1 != u2 && u1 != z && u1 != r && u1 != s && u2 != z && u2 != r && u2 != s && z != r && z != s
    modifies u1, u2, z
    ensures V(u1) < N && V(u2) < N
    ensures IsPrime(N) && 0 < V(s) < N ==>
              Cong(V(u1) * V(s), DigestOf(messageHash[..hashSize]), N) && Cong(V(u2) * V(s), V(r), N)
  {
    hide Val, Cong, Times, DigestOf, IsPrime;
    SetP(z, s);
    InvertN(z);
    ghost var w := V(z);
    Bits2Int(u1, messageHash, hashSize);
    ghost var e := V(u1);
    ModMultN(u1, u1, z);
    ModMultN(u2, r, z);
    NOdd();
    ModBelow(Times(e, w), N);
    ModBelow(Times(V(r), w), N);
    if IsPrime(N) && 0 < V(s) < N {
      Quotient(e, w, V(s), V(u1));
      Quotient(V(r), w, V(s), V(u2));
    }
  }

  lemma Quotient(e: nat, w: nat, s: nat, u: nat)
    requires Cong(w * s, 1, N) && u == Times(e, w) % N
    ensures Cong(u * s, e, N)
  {
    hide Cong;
    CongMod(e * w, N);
    CongRefl(s, N);
    CongMul(u, e * w, s, s, N);
    assert (e * w) * s == e * (w * s);
    CongRefl(e, N);
    CongMul(e, e, w * s, 1, N);
    CongTrans(u * s, e * (w * s), e * 1, N);
  }

  /** result = 1 / result mod p for a nonzero residue, and zero for zero. */
  method InvertP(result: array<Word>)
    requires result.Length == 8
    modifies result
    ensures V(result) < P && (old(V(result)) == 0 ==> V(result) == 0)
    ensures IsPrime(P) && 0 < old(V(result)) < P ==> Cong(V(result) * old(V(result)), 1, P)
  {
    hide Val, Pow, Cong, IsPrime, IsGcd;
    var p := CurveP();
    PValue();
    ghost var x := V(result);
    assert result[..8] == result[..] && p[..8] == p[..];
    ghost var g := VliModInv(result, result, p, 8);
    assert result[..8] == result[..] && p[..8] == p[..];
    if 0 < x < P && IsPrime(P) {
      GcdWithPrime(g, x, P);
    }
  }

  /** sum = G + Q in affine coordinates, for coordinates of Q as they were given. */
  method StoreSum(sx: array<Word>, sy: array<Word>, qx: array<Word>, qy: array<Word>,
                  tx: array<Word>, ty: array<Word>, z: array<Word>, ghost add: Adder)
    requires sx.Length == sy.Length == qx.Length == qy.Length == tx.Length == ty.Length == z.Length == 8
    requires sx != sy && sx != tx && sx != ty && sx != z && sy != tx && sy != ty && sy != z && tx != ty && tx != z
             && ty != z
    requires qx !in {sx, sy, tx, ty, z} && qy !in {sx, sy, tx, ty, z}
    modifies sx, sy, tx, ty, z
    ensures V(sx) < P && V(sy) < P
    ensures var q := Affine(M(V(qx)), M(V(qy)));
            && (Finite(add, q) && q.x != GX ==> add(G(), q) == Affine(V(sx), V(sy)))
            && (q.x == GX ==> V(sx) == 0 && V(sy) == 0)
  {
    hide Val, Cong, M, CoZAdd, FMul, FSub, GroupAssumed, OnCurve, IsPrime, ApplyX, ApplyY;
    var gx, gy := CurveG();
    BaseBounds();
    SetP(sx, qx);
    SetP(sy, qy);
    SetP(tx, gx);
    SetP(ty, gy);
    ModSubP(z, sx, tx);
    ghost var d := V(z);
    ghost var x, y := V(sx), V(sy);
    ValBelowTop(sx[..]);
    ValBelowTop(z[..]);
    DifferenceReduced(x, d);
    SecondPointResidues(GX, GY, x, y);
    XYcZAdd(tx, ty, sx, sy);
    InvertP(z);
    ghost var inv := V(z);
    ghost var j := Jacobian(V(sx), V(sy), inv);
    ApplyReduced(j.x, j.y, inv);
    ApplyZ(sx, sy, z);
    ghost var q := Affine(M(V(qx)), M(V(qy)));
    ApplyZeroFactor(j.x, j.y);
    NoDifference(q.x);
    if Finite(add, q) && q.x != GX {
      DifferenceNonzero(add, q);
      StoredSum(add, q, inv);
    }
  }

  /** Even from an unreduced abscissa the difference comes out reduced. */
  lemma DifferenceReduced(x: nat, d: nat)
    requires x < TOP && d < TOP && M(d) == FSub(x, GX) && (x < P ==> d == FSub(x, GX))
    ensures d == FSub(M(x), GX)
  {
    hide M;
    PValue();
    FSubResidue(x, GX);
    if x >= P {
      MIdem(x - GX);
      if d < P {
        MIdem(d);
      } else {
        MIdem(d - P);
        MLess(d);
        assert false;
      }
    }
  }

  lemma NoDifference(x: nat)
    ensures x == GX ==> FSub(x, GX) == 0
  {
    MIdem(0);
  }

  lemma MLess(x: nat)
    requires x >= P
    ensures M(x) == M(x - P)
  {
  }

  lemma SecondPointResidues(x1: nat, y1: nat, x2: nat, y2: nat)
    ensures CoZAdd(CoZ(x1, y1, x2, y2)) == CoZAdd(CoZ(x1, y1, M(x2), M(y2)))
  {
    hide M, FMul, FSub;
    var A := FMul(FSub(x2, x1), FSub(x2, x1));
    FSubResidue(x2, x1);
    FSubResidue(y2, y1);
    FMulResidues(x2, A);
    FMulResidues(M(x2), A);
    MTwice(x2);
  }

  lemma ApplyReduced(x: nat, y: nat, z: nat)
    ensures ApplyX(x, z) < P && ApplyY(y, z) < P
  {
  }

  lemma BaseBounds()
    ensures GX < P && GY < P
  {
    PValue();
  }

  lemma DifferenceNonzero(add: Adder, q: Point)
    requires GroupAssumed(add) && OnCurve(q) && q.Affine? && q.x != GX
    ensures IsPrime(P) && 0 < FSub(q.x, GX) < P
  {
    hide IsCurveGroup, IsPrime, Cong, M;
    PointBounds(q);
    BaseBounds();
    var d: int := q.x as int - GX as int;
    if M(d) == 0 {
      Ladder.ZeroResidue(d);
      DividesMod(P, d);
      Ladder.CongSmallDifference(GX, q.x);
      assert false;
    }
  }
}
