/** Scalar multiplication: regularize_k, XYcZ_initial_double and EccPoint_mult. */
module EccPoint {
  import opened Words
  import opened Arith
  import opened Bits
  import opened Vli
  import opened ModInv
  import opened Primes
  import opened P256
  import opened Field
  import opened Formulas
  import opened Refine
  import opened Doubling
  import opened CurveGroup
  import opened Ladder
  import opened Scalars
  import opened Cusp
  import opened FinalZ
  import opened PointOps

  function NWords(): (s: seq<Word>)
    ensures |s| == 8
  {
    [0xFC632551, 0xF3B9CAC2, 0xA7179E84, 0xBCE6FAAD, 0xFFFFFFFF, 0xFFFFFFFF, 0, 0xFFFFFFFF]
  }

  /** The constant curve->n; every caller reads its own copy. */
  method CurveN() returns (n: array<Word>)
    ensures fresh(n) && n.Length == 8 && n[..] == NWords()
  {
    n := new Word[8] [0xFC632551, 0xF3B9CAC2, 0xA7179E84, 0xBCE6FAAD, 0xFFFFFFFF, 0xFFFFFFFF, 0, 0xFFFFFFFF];
  }

  lemma NValue()
    ensures Val(NWords()) == N
  {
    Val8(NWords());
  }

  /** A scalar below 2^256 becomes k + n or k + 2 n, whichever has bit 256 set; k0 may be k itself. */
  method RegularizeK(k: array<Word>, k0: array<Word>, k1: array<Word>) returns (carry: bool)
    requires k.Length == k0.Length == k1.Length == 8 && k0 != k1
    modifies k0, k1
    ensures carry <==> old(V(k)) + N >= TOP
    ensures carry ==> TOP + V(k0) == old(V(k)) + N
    ensures !carry ==> TOP + V(k1) == old(V(k)) + 2 * N
  {
    hide Val, Pow;
    var n := CurveN();
    NValue();
    var c := Add8(k0, k, n);
    // num_n_bits is a whole number of words, so only the carry counts.
    carry := c != 0;
    TotalRange(c, k0[..]);
    var d := Add8(k1, k0, n);
    TotalRange(d, k1[..]);
  }

  method XYcZInitialDouble(X1: array<Word>, Y1: array<Word>, X2: array<Word>, Y2: array<Word>,
                           initialZ: array?<Word>, z: array<Word>)
    requires X1.Length == Y1.Length == X2.Length == Y2.Length == z.Length == 8
    requires X1 != Y1 && X1 != X2 && X1 != Y2 && Y1 != X2 && Y1 != Y2 && X2 != Y2
    requires z !in {X1, Y1, X2, Y2} && initialZ !in {X1, Y1, X2, Y2, z}
    requires initialZ != null ==> initialZ.Length == 8 && V(initialZ) < P
    modifies X1, Y1, X2, Y2, z
    ensures var x, y := old(V(X1)), old(V(Y1));
            var z0 := if initialZ == null then 1 else V(initialZ);
            var d := Double(Jacobian(ApplyX(x, z0), ApplyY(y, z0), z0));
            && Jacobian(V(X1), V(Y1), V(z)) == d
            && V(X2) == ApplyX(x, d.z) && V(Y2) == ApplyY(y, d.z)
  {
    hide Val, Pow, Double, M;
    if initialZ != null {
      SetP(z, initialZ);
    } else {
      VliClear(z, 8);
      z[0] := 1;
      ValOfOne(z[..]);
    }
    SetP(X2, X1);
    SetP(Y2, Y1);
    ApplyZ(X1, Y1, z);
    DoubleJacobianDefault(X1, Y1, z);
    ApplyZ(X2, Y2, z);
  }

  /** The ladder starts at m = 1. */
  lemma LadderStart(add: Adder, p: Point, z0: nat)
    requires IsCurveGroup(add) && ConstantsPrime() && OnCurve(p) && p.Affine? && 0 < z0 < P
    ensures var d := Double(Jacobian(ApplyX(p.x, z0), ApplyY(p.y, z0), z0));
            AtLadder(add, p, 1, d.z, ApplyX(p.x, d.z), ApplyY(p.y, d.z), d.x, d.y)
  {
    hide IsCurveGroup, ConstantsPrime, M, Double, Mul, OnCurve, IsTangent, Cube;
    PointBounds(p);
    NoOrderTwo(add, p);
    Tangent(add, p);
    MulOne(add, p);
    MulAdd(add, 1, 1, p);
    var q := add(p, p);
    ApplyIsRep(p.x, p.y, z0);
    MIdem(z0);
    var w := (p.y * Cube(z0)) * z0;
    DoubleRefines(p.x, p.y, q.x, q.y, z0);
    RepReduced(q.x, q.y, w);
    ApplyIsRep(p.x, p.y, M(w));
    MIdem(p.y);
    NonzeroProduct(z0, z0);
    CubeIs(z0);
    NonzeroProduct(z0, z0 * z0);
    NonzeroProduct(p.y, Cube(z0));
    NonzeroProduct(p.y * Cube(z0), z0);
  }

  lemma ApplyIsRep(x: nat, y: nat, z: nat)
    requires x < P && y < P && z < P
    ensures ApplyX(x, z) == RepX(x, z) && ApplyY(y, z) == RepY(y, z)
  {
    hide M;
    MIdem(x);
    MIdem(y);
    MIdem(z);
    MMul(z, z);
    MMul(x, z * z);
    MMul(z * z, z);
    MMul(y, (z * z) * z);
    assert (z * z) * z == z * (z * z);
  }

  /** The pair handed to XYcZ_addC, and the order in which XYcZ_add takes its result. */
  function Ordered(c: CoZ, bit: nat): CoZ {
    if bit == 1 then Swapped(c) else c
  }

  function Swapped(c: CoZ): CoZ {
    CoZ(c.x2, c.y2, c.x1, c.y1)
  }

  /** One turn of the ladder on (R0, R1). */
  function LadderStep(c: CoZ, bit: nat): CoZ {
    var s := CoZAdd(Swapped(CoZAddC(Ordered(c, bit))));
    if bit == 1 then s else Swapped(s)
  }

  /** Before bit i: R0 and R1 are the prefix of k above i and its successor, times p;
      for an exceptional k they are on the cusp instead once i = 0. */
  ghost predicate Running(add: Adder, p: Point, k: nat, i: nat, c: CoZ) {
    if Exceptional(k) && i == 0 then exists g: int :: OnCusp(g, c)
    else SomeLadder(add, p, Shr(k, i + 1), c)
  }

  ghost predicate SomeLadder(add: Adder, p: Point, m: nat, c: CoZ) {
    exists z: nat :: AtLadder(add, p, m, z, c.x1, c.y1, c.x2, c.y2)
  }

  lemma RunningStart(add: Adder, p: Point, k: nat, c: CoZ, z: nat)
    requires TOP <= k < TOP + N && AtLadder(add, p, 1, z, c.x1, c.y1, c.x2, c.y2)
    ensures Running(add, p, k, 255, c)
  {
    hide AtLadder, OnCusp, Pow2;
    Pow2Is256();
    ShrPositive(k, 256);
    ShrBounds(k, 256);
    assert Shr(k, 256) == 1;
    hide Shr;
    assert AtLadder(add, p, 1, z, c.x1, c.y1, c.x2, c.y2);
  }

  lemma RunningStep(add: Adder, p: Point, k: nat, i: nat, c: CoZ)
    requires IsCurveGroup(add) && ConstantsPrime() && OnCurve(p) && p.Affine?
    requires TOP <= k < TOP + N && 1 <= i <= 255 && Running(add, p, k, i, c)
    ensures Running(add, p, k, i - 1, LadderStep(c, Bit(k, i)))
  {
    hide IsCurveGroup, ConstantsPrime, OnCurve, AtLadder, OnCusp, CoZAdd, CoZAddC, Regular, MidStep;
    var m, bit := Shr(k, i + 1), Bit(k, i);
    assert Shr(k, i) == 2 * m + bit;
    var z: nat :| AtLadder(add, p, m, z, c.x1, c.y1, c.x2, c.y2);
    var d := CoZAddC(Ordered(c, bit));
    if Exceptional(k) && i == 1 {
      ExceptionalPrefix(k, 1);
      StepOpposite(add, p, m, z, bit, c.x1, c.y1, c.x2, c.y2);
      var g: int :| OnCusp(g, CoZAdd(Swapped(d)));
      SwapCusp(g, CoZAdd(Swapped(d)));
      assert OnCusp(g, LadderStep(c, bit));
    } else {
      if Exceptional(k) {
        ExceptionalPrefix(k, i);
      } else {
        PrefixRegular(k, i);
      }
      StepAddC(add, p, m, z, bit, c.x1, c.y1, c.x2, c.y2);
      var w: nat :| MidStep(add, p, m, bit, w, d.x1, d.y1, d.x2, d.y2);
      var z' := StepAdd(add, p, m, w, bit, d.x1, d.y1, d.x2, d.y2);
      var e := LadderStep(c, bit);
      assert AtLadder(add, p, Shr(k, i - 1 + 1), z', e.x1, e.y1, e.x2, e.y2);
    }
  }

  /** Bits below 256 of 2^256 + v are bits of v. */
  lemma LowBits(v: nat, i: nat)
    requires i <= 255
    ensures Bit(TOP + v, i) == Bit(v, i)
  {
    hide Pow2;
    Pow2Is256();
    ShrOfSum(v, 1, 256, i);
    Pow2Succ(255 - i);
  }

  /** The four coordinate arrays of R0 and R1. */
  ghost predicate Registers(Rx: seq<array<Word>>, Ry: seq<array<Word>>) {
    && |Rx| == |Ry| == 2 && Rx[0].Length == Rx[1].Length == Ry[0].Length == Ry[1].Length == 8
    && Rx[0] != Rx[1] && Rx[0] != Ry[0] && Rx[0] != Ry[1] && Rx[1] != Ry[0] && Rx[1] != Ry[1] && Ry[0] != Ry[1]
  }

  function Contents(Rx: seq<array<Word>>, Ry: seq<array<Word>>): CoZ
    requires Registers(Rx, Ry)
    reads Rx[0], Rx[1], Ry[0], Ry[1]
  {
    CoZ(V(Rx[0]), V(Ry[0]), V(Rx[1]), V(Ry[1]))
  }

  /** XYcZ_addC on (R[1 - nb], R[nb]). */
  method AddCRegisters(Rx: seq<array<Word>>, Ry: seq<array<Word>>, nb: nat)
    requires Registers(Rx, Ry) && nb <= 1 && Below(Contents(Rx, Ry))
    modifies Rx[0], Rx[1], Ry[0], Ry[1]
    ensures Contents(Rx, Ry) == Ordered(CoZAddC(Ordered(old(Contents(Rx, Ry)), 1 - nb)), 1 - nb)
    ensures Below(Contents(Rx, Ry))
  {
    hide CoZAddC, Val;
    XYcZAddC(Rx[1 - nb], Ry[1 - nb], Rx[nb], Ry[nb]);
  }

  /** XYcZ_add on (R[nb], R[1 - nb]). */
  method AddRegisters(Rx: seq<array<Word>>, Ry: seq<array<Word>>, nb: nat)
    requires Registers(Rx, Ry) && nb <= 1 && Below(Contents(Rx, Ry))
    modifies Rx[0], Rx[1], Ry[0], Ry[1]
    ensures Contents(Rx, Ry) == Ordered(CoZAdd(Ordered(old(Contents(Rx, Ry)), nb)), nb)
    ensures Below(Contents(Rx, Ry))
  {
    hide CoZAdd, Val;
    XYcZAdd(Rx[nb], Ry[nb], Rx[1 - nb], Ry[1 - nb]);
  }

  /** The register operations make up a ladder step. */
  lemma StepComposes(c: CoZ, nb: nat)
    requires nb <= 1
    ensures var a := Ordered(CoZAddC(Ordered(c, 1 - nb)), 1 - nb);
            Ordered(CoZAdd(Ordered(a, nb)), nb) == LadderStep(c, 1 - nb)
  {
    hide CoZAdd, CoZAddC;
  }

  /** The number left in z: the inverse of the last factor, or zero. */
  method FinalInverse(z: array<Word>, Rx: seq<array<Word>>, Ry: seq<array<Word>>,
                      pointX: array<Word>, pointY: array<Word>, nb: nat) returns (ghost inv: nat)
    requires Registers(Rx, Ry) && nb <= 1 && Below(Contents(Rx, Ry))
    requires z.Length == pointX.Length == pointY.Length == 8
    requires z !in Rx && z !in Ry && z != pointX && z != pointY
    modifies z
    ensures var c := Ordered(old(Contents(Rx, Ry)), 1 - nb);
            var den := Denominator(1 - nb, c.x1, c.y1, c.x2, V(pointX));
            && V(z) == FMul(FMul(inv, V(pointY)), c.x1)
            && (den == 0 ==> inv == 0)
            && (den != 0 && IsPrime(P) ==> Cong(inv * den, 1, P))
  {
    hide Val, Pow, FMul, FSub, Cong, IsPrime, IsGcd;
    ModSubP(z, Rx[1], Rx[0]);
    ModMultFast(z, z, Ry[1 - nb]);
    ModMultFast(z, z, pointX);
    var p := CurveP();
    PValue();
    assert z[..8] == z[..] && p[..8] == p[..];
    ghost var den := V(z);
    ghost var g := VliModInv(z, z, p, 8);
    assert z[..8] == z[..] && p[..8] == p[..];
    if den != 0 && IsPrime(P) {
      GcdWithPrime(g, den, P);
    }
    inv := V(z);
    ModMultFast(z, z, pointY);
    ModMultFast(z, z, Rx[1 - nb]);
  }

  /** The affine result of the last addition, from the coordinates and the recovered inverse. */
  lemma LastStep(add: Adder, p: Point, m: nat, w: nat, bit: nat, a: CoZ, z: nat)
    requires IsCurveGroup(add) && ConstantsPrime() && OnCurve(p) && p.Affine? && bit <= 1
    requires MidStep(add, p, m, bit, w, a.x1, a.y1, a.x2, a.y2)
    requires Cong(z * M(NextZ(Mul(add, 2 * m + 1, p).x, p.x, w)), 1, P) && z < P
    ensures var s := CoZAdd(Swapped(a));
            var r := if bit == 1 then s else Swapped(s);
            Affine(ApplyX(r.x1, z), ApplyY(r.y1, z)) == Mul(add, 2 * m + bit, p)
  {
    hide IsCurveGroup, ConstantsPrime, OnCurve, CoZAdd, M, Mul, Cube, Cong, Regular;
    var z' := StepAdd(add, p, m, w, bit, a.x1, a.y1, a.x2, a.y2);
    var q := Mul(add, 2 * m + bit, p);
    MulOnCurve(add, 2 * m + bit, p);
    PointBounds(q);
    MIdem(z);
    ApplyInverse(q.x, q.y, z', z);
  }

  /** With the middle coordinates at hand, the recovered number is the inverse of the last factor. */
  lemma LastInverse(add: Adder, p: Point, m: nat, w: nat, bit: nat, a: CoZ, inv: nat)
    requires IsCurveGroup(add) && ConstantsPrime() && OnCurve(p) && p.Affine? && bit <= 1
    requires MidStep(add, p, m, bit, w, a.x1, a.y1, a.x2, a.y2)
    requires var den := Denominator(bit, a.x1, a.y1, a.x2, p.x);
             (den == 0 ==> inv == 0) && (den != 0 ==> Cong(inv * den, 1, P))
    ensures p.x == 0 ==> inv == 0
    ensures p.x != 0 ==> Cong(FMul(FMul(inv, p.y), a.x1) * M(NextZ(Mul(add, 2 * m + 1, p).x, p.x, w)), 1, P)
  {
    hide IsCurveGroup, ConstantsPrime, OnCurve, M, Mul, Cube, Cong, Denominator, FMul;
    var s := Mul(add, 2 * m + 1, p);
    MulOnCurve(add, 2 * m + 1, p);
    PointBounds(p);
    PointBounds(s);
    DenominatorNonzero(add, bit, p, s, w);
    if p.x != 0 {
      RecoverZ(bit, p, s, w, inv);
    }
  }

  /** Nothing survives a zero factor. */
  lemma ApplyZeroFactor(x: nat, y: nat)
    ensures ApplyX(x, 0) == 0 && ApplyY(y, 0) == 0 && FMul(FMul(0, x), y) == 0
  {
    assert x * (0 * 0) == 0 && 0 * x == 0;
    MIdem(0);
    assert FMul(0, 0) == 0;
    assert x * 0 == 0 && y * 0 == 0 && 0 * y == 0;
  }

  /** What the last bit leaves in the result: k p, or zero. */
  ghost predicate Result(add: Adder, p: Point, k: nat, x: nat, y: nat) {
    if p.Affine? && p.x != 0 && !Exceptional(k) then Affine(x, y) == Mul(add, k, p) else x == 0 && y == 0
  }

  /** The last bit, from the registers after the loop to the affine result. */
  lemma LastBit(add: Adder, p: Point, k: nat, c: CoZ, bit: nat, inv: nat, z: nat)
    requires IsCurveGroup(add) && ConstantsPrime() && OnCurve(p) && p.Affine?
    requires TOP <= k < TOP + N && Running(add, p, k, 0, c) && bit == Bit(k, 0)
    requires var a := CoZAddC(Ordered(c, bit));
             var den := Denominator(bit, a.x1, a.y1, a.x2, p.x);
             && (den == 0 ==> inv == 0) && (den != 0 ==> Cong(inv * den, 1, P))
             && z == FMul(FMul(inv, p.y), a.x1)
    ensures var r := LadderStep(c, bit); Result(add, p, k, ApplyX(r.x1, z), ApplyY(r.y1, z))
  {
    hide IsCurveGroup, ConstantsPrime, OnCurve, AtLadder, OnCusp, CoZAdd, CoZAddC, Regular, MidStep, Cong, M, Mul,
         Denominator, FMul, ApplyX, ApplyY, NextZ;
    var r := LadderStep(c, bit);
    var a := CoZAddC(Ordered(c, bit));
    ApplyZeroFactor(r.x1, r.y1);
    ApplyZeroFactor(p.y, a.x1);
    if Exceptional(k) {
      var g: int :| OnCusp(g, c);
      if bit == 1 {
        SwapCusp(g, c);
      }
      AddCFromCusp(g, Ordered(c, bit));
      ZeroDenominator(bit, p.x);
    } else {
      var m := Shr(k, 1);
      assert k == 2 * m + bit by {
        assert Shr(k, 0) == k;
      }
      PrefixRegular(k, 0);
      assert SomeLadder(add, p, m, c);
      var zl: nat :| AtLadder(add, p, m, zl, c.x1, c.y1, c.x2, c.y2);
      StepAddC(add, p, m, zl, bit, c.x1, c.y1, c.x2, c.y2);
      var w: nat :| MidStep(add, p, m, bit, w, a.x1, a.y1, a.x2, a.y2);
      LastInverse(add, p, m, w, bit, a, inv);
      if p.x != 0 {
        LastStep(add, p, m, w, bit, a, z);
      }
    }
  }

  lemma ZeroDenominator(bit: nat, px: nat)
    ensures Denominator(bit, 0, 0, 0, px) == 0
  {
    assert forall a: int :: FMul(a, 0) == 0 by {
      assert forall a: int :: a * 0 == 0;
      MIdem(0);
    }
    assert 0 * px == 0;
    MIdem(0);
  }

  /** The curve is a group of prime order over a prime field, the point is on it, and the scalar is regularised. */
  ghost predicate Assumed(add: Adder, p: Point, v: nat) {
    IsCurveGroup(add) && ConstantsPrime() && OnCurve(p) && p.Affine? && v < N
  }

  lemma AssumedStep(add: Adder, p: Point, v: nat, i: nat, c: CoZ, bit: nat)
    requires Assumed(add, p, v) && 1 <= i <= 255 && Running(add, p, TOP + v, i, c) && bit == Bit(TOP + v, i)
    ensures Running(add, p, TOP + v, i - 1, LadderStep(c, bit))
  {
    hide IsCurveGroup, ConstantsPrime, OnCurve, Running, LadderStep, Bit;
    RunningStep(add, p, TOP + v, i, c);
  }

  /** The loop over bits 255 to 1. */
  method LadderLoop(Rx: seq<array<Word>>, Ry: seq<array<Word>>, scalar: array<Word>, ghost add: Adder, ghost p: Point)
    requires Registers(Rx, Ry) && scalar.Length == 8 && scalar !in Rx && scalar !in Ry
    requires Below(Contents(Rx, Ry))
    requires Assumed(add, p, V(scalar)) ==> Running(add, p, TOP + V(scalar), 255, Contents(Rx, Ry))
    modifies Rx[0], Rx[1], Ry[0], Ry[1]
    ensures Below(Contents(Rx, Ry))
    ensures Assumed(add, p, V(scalar)) ==> Running(add, p, TOP + V(scalar), 0, Contents(Rx, Ry))
  {
    hide Assumed, Running, LadderStep, CoZAdd, CoZAddC, Ordered, Val, Below, Bit;
    ghost var k := TOP + V(scalar);
    var i := 255;
    while i > 0
      invariant 0 <= i <= 255 && k == TOP + V(scalar)
      invariant Below(Contents(Rx, Ry))
      invariant Assumed(add, p, V(scalar)) ==> Running(add, p, k, i, Contents(Rx, Ry))
    {
      ghost var c := Contents(Rx, Ry);
      var isSet := VliTestBit(scalar, i);
      var nb := if isSet then 0 else 1;
      BitRange(V(scalar), i);
      LowBits(V(scalar), i);
      if Assumed(add, p, V(scalar)) {
        AssumedStep(add, p, V(scalar), i, c, 1 - nb);
      }
      StepComposes(c, nb);
      AddCRegisters(Rx, Ry, nb);
      AddRegisters(Rx, Ry, nb);
      i := i - 1;
    }
  }

  lemma BitRange(v: nat, i: nat)
    ensures Bit(v, i) == 0 || Bit(v, i) == 1
  {
  }

  lemma SomeZ(add: Adder, p: Point, v: nat, c: CoZ, z0: nat)
    requires p.Affine? && 0 < z0 < P
    requires var d := Double(Jacobian(ApplyX(p.x, z0), ApplyY(p.y, z0), z0));
             c == CoZ(ApplyX(p.x, d.z), ApplyY(p.y, d.z), d.x, d.y)
    ensures Below(c)
    ensures Assumed(add, p, v) ==> Running(add, p, TOP + v, 255, c)
  {
    hide IsCurveGroup, ConstantsPrime, OnCurve, AtLadder, M, Double, Running;
    var d := Double(Jacobian(ApplyX(p.x, z0), ApplyY(p.y, z0), z0));
    if Assumed(add, p, v) {
      LadderStart(add, p, z0);
      RunningStart(add, p, TOP + v, c, d.z);
    }
    DoubleBelow(ApplyX(p.x, z0), ApplyY(p.y, z0), z0);
  }

  lemma DoubleBelow(x: nat, y: nat, z: nat)
    requires x < P && y < P
    ensures Double(Jacobian(x, y, z)).x < P && Double(Jacobian(x, y, z)).y < P
  {
    hide FHalf, M;
  }

  lemma AssumedParts(add: Adder, p: Point, v: nat)
    requires Assumed(add, p, v)
    ensures IsCurveGroup(add) && ConstantsPrime() && OnCurve(p) && p.Affine? && TOP <= TOP + v < TOP + N
  {
    hide IsCurveGroup, ConstantsPrime, OnCurve;
  }

  lemma AssumedLastBit(add: Adder, p: Point, v: nat, c: CoZ, bit: nat, inv: nat, z: nat)
    requires Assumed(add, p, v) && Running(add, p, TOP + v, 0, c) && bit == Bit(TOP + v, 0)
    requires var a := CoZAddC(Ordered(c, bit));
             var den := Denominator(bit, a.x1, a.y1, a.x2, p.x);
             && (den == 0 ==> inv == 0) && (den != 0 && IsPrime(P) ==> Cong(inv * den, 1, P))
             && z == FMul(FMul(inv, p.y), a.x1)
    ensures var r := LadderStep(c, bit); Result(add, p, TOP + v, ApplyX(r.x1, z), ApplyY(r.y1, z))
  {
    hide *;
    AssumedParts(add, p, v);
    PrimeP();
    LastBit(add, p, TOP + v, c, bit, inv, z);
  }

  /** The two additions of the last bit, and between them the number that will divide out Z. */
  method LastTurn(Rx: seq<array<Word>>, Ry: seq<array<Word>>, z: array<Word>,
                  pointX: array<Word>, pointY: array<Word>, nb: nat) returns (ghost inv: nat)
    requires Registers(Rx, Ry) && nb <= 1 && Below(Contents(Rx, Ry))
    requires z.Length == pointX.Length == pointY.Length == 8
    requires pointX !in Rx && pointX !in Ry && pointY !in Rx && pointY !in Ry
    requires z !in Rx && z !in Ry && z != pointX && z != pointY
    modifies Rx[0], Rx[1], Ry[0], Ry[1], z
    ensures Contents(Rx, Ry) == LadderStep(old(Contents(Rx, Ry)), 1 - nb)
    ensures var a := CoZAddC(Ordered(old(Contents(Rx, Ry)), 1 - nb));
            var den := Denominator(1 - nb, a.x1, a.y1, a.x2, V(pointX));
            && (den == 0 ==> inv == 0) && (den != 0 && IsPrime(P) ==> Cong(inv * den, 1, P))
            && V(z) == FMul(FMul(inv, V(pointY)), a.x1)
  {
    hide IsPrime, LadderStep, CoZAdd, CoZAddC, Val, Below, FMul, Denominator, Cong;
    ghost var c := Contents(Rx, Ry);
    AddCRegisters(Rx, Ry, nb);
    inv := FinalInverse(z, Rx, Ry, pointX, pointY, nb);
    AddRegisters(Rx, Ry, nb);
    StepComposes(c, nb);
  }

  /** The last bit, the recovery of 1/Z, and the affine result in R0. */
  method LadderEnd(Rx: seq<array<Word>>, Ry: seq<array<Word>>, z: array<Word>,
                   pointX: array<Word>, pointY: array<Word>, scalar: array<Word>, ghost add: Adder)
    requires Registers(Rx, Ry) && z.Length == pointX.Length == pointY.Length == scalar.Length == 8
    requires scalar !in Rx && scalar !in Ry && pointX !in Rx && pointX !in Ry && pointY !in Rx && pointY !in Ry
    requires z !in Rx && z !in Ry && z != pointX && z != pointY && z != scalar
    requires Below(Contents(Rx, Ry))
    requires Assumed(add, Affine(V(pointX), V(pointY)), V(scalar)) ==>
               Running(add, Affine(V(pointX), V(pointY)), TOP + V(scalar), 0, Contents(Rx, Ry))
    modifies Rx[0], Rx[1], Ry[0], Ry[1], z
    ensures Assumed(add, Affine(V(pointX), V(pointY)), V(scalar)) ==>
              Result(add, Affine(V(pointX), V(pointY)), TOP + V(scalar), V(Rx[0]), V(Ry[0]))
  {
    hide Assumed, IsPrime, Running, LadderStep, CoZAdd, CoZAddC, Val, Below,
         ApplyX, ApplyY, FMul, FSub, M, Result, Denominator, Bit, Shr, Pow2, Cong;
    ghost var p := Affine(V(pointX), V(pointY));
    ghost var c := Contents(Rx, Ry);
    var isSet := VliTestBit(scalar, 0);
    var nb := if isSet then 0 else 1;
    BitRange(V(scalar), 0);
    LowBits(V(scalar), 0);
    ghost var inv := LastTurn(Rx, Ry, z, pointX, pointY, nb);
    if Assumed(add, p, V(scalar)) {
      AssumedLastBit(add, p, V(scalar), c, 1 - nb, inv, V(z));
    }
    ApplyZ(Rx[0], Ry[0], z);
  }

  /** The whole multiplication on given registers, with the result left in R0. */
  method MultInRegisters(Rx: seq<array<Word>>, Ry: seq<array<Word>>, z: array<Word>,
                         pointX: array<Word>, pointY: array<Word>, scalar: array<Word>, initialZ: array?<Word>,
                         ghost add: Adder)
    requires Registers(Rx, Ry) && z.Length == pointX.Length == pointY.Length == scalar.Length == 8
    requires scalar !in Rx && scalar !in Ry && pointX !in Rx && pointX !in Ry && pointY !in Rx && pointY !in Ry
    requires z !in Rx && z !in Ry && z != pointX && z != pointY && z != scalar
    requires initialZ != null ==>
               initialZ.Length == 8 && 0 < V(initialZ) < P && initialZ !in Rx && initialZ !in Ry && initialZ != z
    modifies Rx[0], Rx[1], Ry[0], Ry[1], z
    ensures Assumed(add, Affine(V(pointX), V(pointY)), V(scalar)) ==>
              Result(add, Affine(V(pointX), V(pointY)), TOP + V(scalar), V(Rx[0]), V(Ry[0]))
  {
    hide Assumed, Running, Double, Val, Below, ApplyX, ApplyY, Result;
    ghost var p := Affine(V(pointX), V(pointY));
    ghost var z0 := if initialZ == null then 1 else V(initialZ);
    SetP(Rx[1], pointX);
    SetP(Ry[1], pointY);
    XYcZInitialDouble(Rx[1], Ry[1], Rx[0], Ry[0], initialZ, z);
    SomeZ(add, p, V(scalar), Contents(Rx, Ry), z0);
    LadderLoop(Rx, Ry, scalar, add, p);
    LadderEnd(Rx, Ry, z, pointX, pointY, scalar, add);
  }

  /** result = (2^256 + scalar) times the point, for a scalar below n as regularize_k yields it, whatever the
      initial Z; zero for the exceptional scalars and for a point with abscissa zero. The result may overlap
      the point. */
  method EccPointMult(resultX: array<Word>, resultY: array<Word>, pointX: array<Word>, pointY: array<Word>,
                      scalar: array<Word>, initialZ: array?<Word>, ghost add: Adder)
    requires resultX.Length == resultY.Length == pointX.Length == pointY.Length == scalar.Length == 8
    requires resultX != resultY
    requires initialZ != null ==> initialZ.Length == 8 && 0 < V(initialZ) < P
    modifies resultX, resultY
    ensures Assumed(add, Affine(old(V(pointX)), old(V(pointY))), old(V(scalar))) ==>
              Result(add, Affine(old(V(pointX)), old(V(pointY))), TOP + old(V(scalar)), V(resultX), V(resultY))
  {
    hide *;
    var rx0, rx1 := new Word[8], new Word[8];
    var ry0, ry1 := new Word[8], new Word[8];
    var Rx, Ry := [rx0, rx1], [ry0, ry1];
    var z := new Word[8];
    RegistersIntro(Rx, Ry);
    MultInRegisters(Rx, Ry, z, pointX, pointY, scalar, initialZ, add);
    SetP(resultX, Rx[0]);
    SetP(resultY, Ry[0]);
  }

  lemma RegistersIntro(Rx: seq<array<Word>>, Ry: seq<array<Word>>)
    requires |Rx| == |Ry| == 2 && Rx[0].Length == Rx[1].Length == Ry[0].Length == Ry[1].Length == 8
    requires Rx[0] != Rx[1] && Rx[0] != Ry[0] && Rx[0] != Ry[1] && Rx[1] != Ry[0] && Rx[1] != Ry[1] && Ry[0] != Ry[1]
    ensures Registers(Rx, Ry)
  {
  }

  lemma PrimeP()
    requires ConstantsPrime()
    ensures IsPrime(P)
  {
  }
}
