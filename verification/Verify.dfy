/** uECC_verify, and its agreement with signing. */
module Verify {
  import opened Words
  import opened Arith
  import opened Bits
  import opened Vli
  import opened ModInv
  import opened Primes
  import opened Bytes
  import opened P256
  import opened Field
  import opened Formulas
  import opened CurveGroup
  import opened PointOps
  import opened EccPoint
  import opened Keys
  import opened Shamir
  import opened Ecdsa

  /** The table of points[]: G, Q and, when their abscissas differ, G + Q, as they are stored. Q may be unreduced. */
  ghost predicate Table(add: Adder, q: Point, gx: nat, gy: nat, qx: nat, qy: nat, sx: nat, sy: nat) {
    && G() == Affine(M(gx), M(gy)) && q == Affine(M(qx), M(qy))
    && (q.x != GX ==> add(G(), q) == Affine(M(sx), M(sy)))
  }

  /** uECC_vli_testBit on one of the scalars. */
  method TestScalarBit(u: array<Word>, bit: nat) returns (b: bool)
    requires u.Length == 8 && bit < 256
    ensures b <==> Bit(V(u), bit) == 1
  {
    hide Val, Bit;
    b := VliTestBit(u, bit);
  }

  /** The number one as a first Z. */
  method SetToOne(z: array<Word>)
    requires z.Length == 8
    modifies z
    ensures V(z) == 1
  {
    hide Val;
    VliClear(z, 8);
    z[0] := 1;
    ValOfOne(z[..]);
  }

  lemma TableParts(add: Adder, q: Point, gx: nat, gy: nat, qx: nat, qy: nat, sx: nat, sy: nat)
    requires Table(add, q, gx, gy, qx, qy, sx, sy)
    ensures G() == Affine(M(gx), M(gy)) && q == Affine(M(qx), M(qy))
    ensures q.x != GX ==> add(G(), q) == Affine(M(sx), M(sy))
  {
    hide M, G;
  }

  lemma PickedEntry(add: Adder, q: Point, b1: nat, b2: nat)
    requires Finite(add, q) && b1 <= 1 && b2 <= 1 && b1 + b2 > 0
    ensures Sum(add, q, b1, b2) == if b2 == 0 then G() else if b1 == 0 then q else add(G(), q)
  {
    hide *;
    FinitePicked(add, q);
  }

  /** The entry of the table that two bits choose. */
  lemma TableEntry(add: Adder, q: Point, gx: nat, gy: nat, qx: nat, qy: nat, sx: nat, sy: nat, b1: nat, b2: nat)
    requires Finite(add, q) && Table(add, q, gx, gy, qx, qy, sx, sy)
    requires b1 <= 1 && b2 <= 1 && b1 + b2 > 0 && (b1 == b2 ==> q.Affine? && q.x != GX)
    ensures b2 == 0 ==> Sum(add, q, b1, b2) == Affine(M(gx), M(gy))
    ensures b1 == 0 ==> Sum(add, q, b1, b2) == Affine(M(qx), M(qy))
    ensures b1 == 1 && b2 == 1 ==> Sum(add, q, b1, b2) == Affine(M(sx), M(sy))
  {
    hide *;
    PickedEntry(add, q, b1, b2);
    TableParts(add, q, gx, gy, qx, qy, sx, sy);
  }

  /** One turn: doubling, then the addition that the bits ask for. */
  method ShamirTurn(b1: bool, b2: bool, rx: array<Word>, ry: array<Word>, z: array<Word>,
                    tx: array<Word>, ty: array<Word>, tz: array<Word>, gx: array<Word>, gy: array<Word>,
                    qx: array<Word>, qy: array<Word>, sx: array<Word>, sy: array<Word>)
    requires rx.Length == ry.Length == z.Length == tx.Length == ty.Length == tz.Length == 8
    requires gx.Length == gy.Length == qx.Length == qy.Length == sx.Length == sy.Length == 8
    requires rx != ry && rx != z && rx != tx && rx != ty && rx != tz && ry != z && ry != tx && ry != ty && ry != tz
    requires z != tx && z != ty && z != tz && tx != ty && tx != tz && ty != tz
    requires {gx, gy, qx, qy, sx, sy} !! {rx, ry, z, tx, ty, tz}
    requires V(z) < P
    modifies rx, ry, z, tx, ty, tz
    ensures V(z) < P
    ensures var d := Double(Canonical(old(Jacobian(V(rx), V(ry), V(z)))));
            Canonical(Jacobian(V(rx), V(ry), V(z)))
            == if b1 && b2 then MixedAdd(d, M(V(sx)), M(V(sy))) else if b1 then MixedAdd(d, M(V(gx)), M(V(gy)))
               else if b2 then MixedAdd(d, M(V(qx)), M(V(qy))) else d
  {
    hide Val, Double, MixedAdd, M;
    ghost var j := Jacobian(V(rx), V(ry), V(z));
    DoubleCanonical(j);
    DoubleReduced(j);
    DoubleJacobianDefault(rx, ry, z);
    if b1 || b2 {
      var px := if b1 && b2 then sx else if b1 then gx else qx;
      var py := if b1 && b2 then sy else if b1 then gy else qy;
      assert px in {gx, gy, qx, qy, sx, sy} && py in {gx, gy, qx, qy, sx, sy};
      MixedAddCanonical(Double(j), V(px), V(py));
      MixedAddInPlace(rx, ry, z, tx, ty, tz, px, py);
      MIdem(V(rx));
      MIdem(V(ry));
    }
  }

  lemma DoubleReduced(j: Jacobian)
    requires j.z < P
    ensures Double(j).z < P
  {
    hide FHalf, FAdd, FSub, FMul;
  }

  /** The turn, in terms of the sums of prefixes. */
  lemma TurnMeaning(add: Adder, q: Point, u1: nat, u2: nat, i: nat, j: Jacobian, j': Jacobian,
                    gx: nat, gy: nat, qx: nat, qy: nat, sx: nat, sy: nat)
    requires Served(add, q, u1, u2) && Table(add, q, gx, gy, qx, qy, sx, sy) && LoopAt(add, q, u1, u2, i + 1, j)
    requires var d, b1, b2 := Double(j), Bit(u1, i) == 1, Bit(u2, i) == 1;
             j' == if b1 && b2 then MixedAdd(d, M(sx), M(sy)) else if b1 then MixedAdd(d, M(gx), M(gy))
                   else if b2 then MixedAdd(d, M(qx), M(qy)) else d
    ensures LoopAt(add, q, u1, u2, i, j')
  {
    hide Served, Finite, Table, Sum, LoopAt, Double, MixedAdd, Bit, M;
    ServedAt(add, q, u1, u2, i);
    TurnExact(add, q, u1, u2, i, j);
    BitBound(u1, i);
    BitBound(u2, i);
    if Bit(u1, i) == 1 || Bit(u2, i) == 1 {
      TableEntry(add, q, gx, gy, qx, qy, sx, sy, Bit(u1, i), Bit(u2, i));
    }
  }

  lemma ServedAt(add: Adder, q: Point, u1: nat, u2: nat, i: nat)
    requires Served(add, q, u1, u2)
    ensures Finite(add, q) && q.Affine? && (Bit(u1, i) == 1 && Bit(u2, i) == 1 ==> q.x != GX)
  {
    hide GroupAssumed, OnCurve, Bit;
  }

  /** Whatever the bits ask for, a lost point stays lost. */
  lemma LostTurn(j: Jacobian, j': Jacobian, b1: bool, b2: bool, g: Point, q: Point, s: Point)
    requires Lost(j) && g.Affine? && q.Affine? && s.Affine?
    requires var d := Double(j);
             j' == if b1 && b2 then MixedAdd(d, s.x, s.y) else if b1 then MixedAdd(d, g.x, g.y)
                   else if b2 then MixedAdd(d, q.x, q.y) else d
    ensures Lost(j')
  {
    hide Lost, Double, MixedAdd;
    LostStays(j, g.x, g.y);
    LostStays(j, q.x, q.y);
    LostStays(j, s.x, s.y);
  }

  /** u1 G + u2 Q by Shamir's trick, in Jacobian coordinates. */
  method ShamirLoop(u1: array<Word>, u2: array<Word>, numBits: nat, rx: array<Word>, ry: array<Word>, z: array<Word>,
                    tx: array<Word>, ty: array<Word>, tz: array<Word>, gx: array<Word>, gy: array<Word>,
                    qx: array<Word>, qy: array<Word>, sx: array<Word>, sy: array<Word>, ghost add: Adder)
    requires rx.Length == ry.Length == z.Length == tx.Length == ty.Length == tz.Length == 8
    requires gx.Length == gy.Length == qx.Length == qy.Length == sx.Length == sy.Length == 8
    requires u1.Length == u2.Length == 8 && 1 <= numBits <= 256
    requires rx != ry && rx != z && rx != tx && rx != ty && rx != tz && ry != z && ry != tx && ry != ty && ry != tz
    requires z != tx && z != ty && z != tz && tx != ty && tx != tz && ty != tz
    requires {gx, gy, qx, qy, sx, sy} !! {rx, ry, z, tx, ty, tz}
    requires u1 !in {rx, ry, z, tx, ty, tz} && u2 !in {rx, ry, z, tx, ty, tz}
    requires V(z) < P
    requires var q := Affine(M(V(qx)), M(V(qy)));
             Served(add, q, V(u1), V(u2)) ==>
               && Table(add, q, V(gx), V(gy), V(qx), V(qy), V(sx), V(sy))
               && LoopAt(add, q, V(u1), V(u2), numBits - 1, Canonical(Jacobian(V(rx), V(ry), V(z))))
    modifies rx, ry, z, tx, ty, tz
    ensures V(z) < P
    ensures var q := Affine(M(V(qx)), M(V(qy)));
            Served(add, q, V(u1), V(u2)) ==>
              LoopAt(add, q, V(u1), V(u2), 0, Canonical(Jacobian(V(rx), V(ry), V(z))))
    ensures Lost(Canonical(old(Jacobian(V(rx), V(ry), V(z))))) ==> Lost(Canonical(Jacobian(V(rx), V(ry), V(z))))
  {
    hide *;
    ghost var q, n1, n2 := Affine(M(V(qx)), M(V(qy))), V(u1), V(u2);
    ghost var cgx, cgy, cqx, cqy, csx, csy := V(gx), V(gy), V(qx), V(qy), V(sx), V(sy);
    ghost var lost := Lost(Canonical(Jacobian(V(rx), V(ry), V(z))));
    var i := numBits - 2;
    while i >= 0
      invariant -1 <= i <= numBits - 2
      invariant V(gx) == cgx && V(gy) == cgy && V(sx) == csx && V(sy) == csy
      invariant V(qx) == cqx && V(qy) == cqy && V(u1) == n1 && V(u2) == n2
      invariant V(z) < P
      invariant Served(add, q, n1, n2) ==> LoopAt(add, q, n1, n2, i + 1, Canonical(Jacobian(V(rx), V(ry), V(z))))
      invariant lost ==> Lost(Canonical(Jacobian(V(rx), V(ry), V(z))))
    {
      ghost var j := Canonical(Jacobian(V(rx), V(ry), V(z)));
      var b1 := TestScalarBit(u1, i);
      var b2 := TestScalarBit(u2, i);
      ShamirTurn(b1, b2, rx, ry, z, tx, ty, tz, gx, gy, qx, qy, sx, sy);
      ghost var j' := Canonical(Jacobian(V(rx), V(ry), V(z)));
      if Served(add, q, n1, n2) {
        TurnMeaning(add, q, n1, n2, i, j, j', cgx, cgy, cqx, cqy, csx, csy);
      }
      if lost {
        LostTurn(j, j', b1, b2, Affine(M(cgx), M(cgy)), Affine(M(cqx), M(cqy)), Affine(M(csx), M(csy)));
      }
      i := i - 1;
    }
  }

  /** Loading the first point of the loop. */
  method LoadFirst(b1: bool, b2: bool, rx: array<Word>, ry: array<Word>, z: array<Word>,
                   gx: array<Word>, gy: array<Word>, qx: array<Word>, qy: array<Word>,
                   sx: array<Word>, sy: array<Word>)
    requires rx.Length == ry.Length == z.Length == 8 && rx != ry && rx != z && ry != z
    requires gx.Length == gy.Length == qx.Length == qy.Length == sx.Length == sy.Length == 8
    requires {gx, gy, qx, qy, sx, sy} !! {rx, ry, z}
    modifies rx, ry, z
    ensures V(z) == 1
    ensures V(rx) == if b1 && b2 then V(sx) else if b1 then V(gx) else V(qx)
    ensures V(ry) == if b1 && b2 then V(sy) else if b1 then V(gy) else V(qy)
  {
    hide *;
    var px := if b1 && b2 then sx else if b1 then gx else qx;
    var py := if b1 && b2 then sy else if b1 then gy else qy;
    assert px in {gx, gy, qx, qy, sx, sy} && py in {gx, gy, qx, qy, sx, sy};
    SetP(rx, px);
    SetP(ry, py);
    SetToOne(z);
  }

  lemma FirstMeaning(add: Adder, q: Point, u1: nat, u2: nat, n: nat, gx: nat, gy: nat, qx: nat, qy: nat,
                     sx: nat, sy: nat, x: nat, y: nat)
    requires Served(add, q, u1, u2) && Table(add, q, gx, gy, qx, qy, sx, sy)
    requires n > 0 && Shr(u1, n) == 0 && Shr(u2, n) == 0 && (Shr(u1, n - 1) == 1 || Shr(u2, n - 1) == 1)
    requires var b1, b2 := Bit(u1, n - 1) == 1, Bit(u2, n - 1) == 1;
             && x == (if b1 && b2 then sx else if b1 then gx else qx)
             && y == (if b1 && b2 then sy else if b1 then gy else qy)
    ensures LoopAt(add, q, u1, u2, n - 1, Canonical(Jacobian(x, y, 1)))
  {
    hide Served, Finite, Table, Sum, LoopAt, Bit, Shr, M;
    ServedAt(add, q, u1, u2, n - 1);
    FirstStands(add, q, u1, u2, n);
    BitBound(u1, n - 1);
    BitBound(u2, n - 1);
    TableEntry(add, q, gx, gy, qx, qy, sx, sy, Bit(u1, n - 1), Bit(u2, n - 1));
  }

  /** The bit length of the longer scalar. */
  method LongerLength(u1: array<Word>, u2: array<Word>) returns (n: nat)
    requires u1.Length == u2.Length == 8
    ensures Shr(V(u1), n) == 0 && Shr(V(u2), n) == 0 && n <= 256
    ensures n > 0 ==> Shr(V(u1), n - 1) == 1 || Shr(V(u2), n - 1) == 1
    ensures n > 0 && BitLength(V(u1)) == BitLength(V(u2)) ==> Shr(V(u1), n - 1) == 1 && Shr(V(u2), n - 1) == 1
  {
    hide Val, Shr, BitLength;
    assert u1[..8] == u1[..] && u2[..8] == u2[..];
    var n1 := VliNumBits(u1, 8);
    var n2 := VliNumBits(u2, 8);
    n := if n1 > n2 then n1 else n2;
    ShrStaysZero(V(u1), n1, n);
    ShrStaysZero(V(u2), n2, n);
    BitLengthIs(V(u1), n1);
    BitLengthIs(V(u2), n2);
  }

  /** The abscissa the verification compares, reduced modulo n by at most one subtraction. */
  method ReduceX(rx: array<Word>)
    requires rx.Length == 8 && V(rx) < P
    modifies rx
    ensures V(rx) == old(V(rx)) % N
  {
    hide Val, Pow;
    var n := CurveN();
    NValue();
    NOdd();
    ghost var x := V(rx);
    assert n[..8] == n[..] && rx[..8] == rx[..];
    var cmp := VliCmpUnsafe(n, rx, 8);
    if cmp != 1 {
      var b := Sub8(rx, rx, n);
      TotalRange(-b, rx[..]);
      DivUnique(x, N, 1, x - N);
    } else {
      DivUnique(x, N, 0, x);
    }
  }

  /** u1 = e / s and u2 = r / s modulo n. */
  ghost predicate Scalars(e: nat, r: nat, s: nat, u1: nat, u2: nat) {
    u1 < N && u2 < N && Cong(u1 * s, e, N) && Cong(u2 * s, r, N)
  }

  /** The comparison at the end, for these scalars: it fails after a collision, where the loop has ended at zero. */
  ghost predicate Decides(add: Adder, q: Point, r: nat, ok: bool, u1: nat, u2: nat) {
    var sum := Sum(add, q, u1, u2);
    ok <==> NoCollision(add, q, u1, u2) && sum.Affine? && sum.x % N == r
  }

  /** What verification answers. Nothing out of range is accepted. Otherwise, for a point Q of the curve, the answer is
      yes exactly when no addition collides and x(u1 G + u2 Q) = r modulo n; if Q is G or -G, this holds for scalars
      without a common one bit, and for scalars of the same length the answer is always no. */
  ghost predicate Verdict(add: Adder, q: Point, e: nat, r: nat, s: nat, ok: bool) {
    && (ok ==> 0 < r < N && 0 < s < N)
    && (0 < r < N && 0 < s < N && Finite(add, q) ==>
          && (exists u1: nat, u2: nat :: Scalars(e, r, s, u1, u2))
          && (forall u1: nat, u2: nat :: Scalars(e, r, s, u1, u2) ==> Answers(add, q, r, ok, u1, u2)))
  }

  ghost predicate Answers(add: Adder, q: Point, r: nat, ok: bool, u1: nat, u2: nat) {
    && (Served(add, q, u1, u2) ==> Decides(add, q, r, ok, u1, u2))
    && (q.Affine? && q.x == GX && BitLength(u1) == BitLength(u2) ==> !ok)
  }

  /** A quotient modulo a prime is unique, so that what holds for the computed scalars holds for all. */
  lemma QuotientUnique(x: int, s: int, u: nat, v: nat, n: nat)
    requires IsPrime(n) && 0 < s < n && u < n && v < n && Cong(u * s, x, n) && Cong(v * s, x, n)
    ensures u == v
  {
    hide Cong, IsPrime, Divides;
    CongSym(v * s, x, n);
    CongTrans(u * s, x, v * s, n);
    assert u * s == s * u && v * s == s * v;
    SmallNotDivided(s, n);
    CancelPrime(s, u, v, n);
    CongSmall(u, v, n);
  }

  lemma VerdictIntro(add: Adder, q: Point, e: nat, r: nat, s: nat, ok: bool, u1: nat, u2: nat)
    requires 0 < r < N && 0 < s < N
    requires Finite(add, q) ==> Scalars(e, r, s, u1, u2) && Answers(add, q, r, ok, u1, u2)
    ensures Verdict(add, q, e, r, s, ok)
  {
    hide Cong, Answers, IsPrime, IsCurveGroup, OnCurve;
    if Finite(add, q) {
      assert Scalars(e, r, s, u1, u2);
      forall v1: nat, v2: nat | Scalars(e, r, s, v1, v2)
        ensures Answers(add, q, r, ok, v1, v2)
      {
        QuotientUnique(e, s, u1, v1, N);
        QuotientUnique(r, s, u2, v2, N);
      }
    }
  }

  /** r / s is not zero, so the scalars are not both zero. */
  lemma SecondScalarNonzero(r: nat, s: nat, u2: nat)
    requires IsPrime(N) && 0 < r < N && Cong(u2 * s, r, N)
    ensures u2 > 0
  {
    if u2 == 0 {
      CongSmall(u2 * s, r, N);
    }
  }

  /** The number that the verification compares with r. */
  ghost predicate Compared(add: Adder, q: Point, u1: nat, u2: nat, x: nat) {
    && (Served(add, q, u1, u2) ==>
          && x == LoopX(add, q, u1, u2)
          && (NoCollision(add, q, u1, u2) ==> Sum(add, q, u1, u2).Affine?))
    && (q.Affine? && q.x == GX && BitLength(u1) == BitLength(u2) ==> x == 0)
  }

  /** From the scalars to the abscissa of u1 G + u2 Q modulo n. */
  method DoubleScalarX(u1: array<Word>, u2: array<Word>, rx: array<Word>, ry: array<Word>, z: array<Word>,
                       tx: array<Word>, ty: array<Word>, tz: array<Word>, gx: array<Word>, gy: array<Word>,
                       qx: array<Word>, qy: array<Word>, sx: array<Word>, sy: array<Word>, ghost add: Adder)
    requires rx.Length == ry.Length == z.Length == tx.Length == ty.Length == tz.Length == 8
    requires gx.Length == gy.Length == qx.Length == qy.Length == sx.Length == sy.Length == 8
    requires u1.Length == u2.Length == 8
    requires rx != ry && rx != z && rx != tx && rx != ty && rx != tz && ry != z && ry != tx && ry != ty && ry != tz
    requires z != tx && z != ty && z != tz && tx != ty && tx != tz && ty != tz
    requires {gx, gy, qx, qy, sx, sy} !! {rx, ry, z, tx, ty, tz}
    requires u1 !in {rx, ry, z, tx, ty, tz} && u2 !in {rx, ry, z, tx, ty, tz}
    requires V(gx) == GX && V(gy) == GY && V(sx) < P && V(sy) < P
    requires var q := Affine(M(V(qx)), M(V(qy)));
             && (Finite(add, q) && q.x != GX ==> add(G(), q) == Affine(V(sx), V(sy)))
             && (q.x == GX ==> V(sx) == 0 && V(sy) == 0)
    modifies rx, ry, z, tx, ty, tz
    ensures var q := Affine(M(V(qx)), M(V(qy)));
            V(u1) > 0 || V(u2) > 0 ==> Compared(add, q, V(u1), V(u2), V(rx))
  {
    hide *;
    ghost var q, n1, n2 := Affine(M(V(qx)), M(V(qy))), V(u1), V(u2);
    var numBits := LongerLength(u1, u2);
    // The scalars are not both zero when n is prime.
    if numBits == 0 {
      NoBits(n1, n2);
      return;
    }
    var b1 := TestScalarBit(u1, numBits - 1);
    var b2 := TestScalarBit(u2, numBits - 1);
    LoadFirst(b1, b2, rx, ry, z, gx, gy, qx, qy, sx, sy);
    TwoBelow();
    ghost var same := BitLength(n1) == BitLength(n2);
    if same && q.x == GX {
      NothingLoaded(n1, n2, numBits, V(rx), V(ry));
    }
    if Served(add, q, n1, n2) {
      ServedAt(add, q, n1, n2, 0);
      TableIntro(add, V(qx), V(qy), V(sx), V(sy));
      FirstMeaning(add, q, n1, n2, numBits, GX, GY, V(qx), V(qy), V(sx), V(sy), V(rx), V(ry));
    }
    ShamirLoop(u1, u2, numBits, rx, ry, z, tx, ty, tz, gx, gy, qx, qy, sx, sy, add);
    ghost var j := Jacobian(V(rx), V(ry), V(z));
    InvertP(z);
    ghost var inv := V(z);
    ApplyZ(rx, ry, z);
    AppliedResidue(j.x, inv);
    if Served(add, q, n1, n2) {
      CanonicalEnd(add, q, n1, n2, j, inv);
    }
    if same && q.x == GX {
      CanonicalParts(j);
      LostEnd(Canonical(j), inv);
    }
    ghost var x := V(rx);
    ReduceX(rx);
    ComparedIntro(add, q, n1, n2, x, V(rx));
  }

  lemma TwoBelow()
    ensures 2 < P
  {
    PValue();
  }

  /** G + Q has been stored as (0, 0), and the top bits of both scalars load it. */
  lemma NothingLoaded(u1: nat, u2: nat, n: nat, x: nat, y: nat)
    requires n > 0 && Shr(u1, n - 1) == 1 && Shr(u2, n - 1) == 1
    requires Bit(u1, n - 1) == 1 && Bit(u2, n - 1) == 1 ==> x == 0 && y == 0
    ensures Lost(Canonical(Jacobian(x, y, 1)))
  {
    hide Shr;
    MIdem(0);
  }

  lemma CanonicalParts(j: Jacobian)
    ensures Canonical(j) == Jacobian(M(j.x), M(j.y), j.z)
  {
    hide M;
  }

  lemma ComparedIntro(add: Adder, q: Point, u1: nat, u2: nat, x: nat, v: nat)
    requires v == x % N
    requires Served(add, q, u1, u2) ==>
               && v == LoopX(add, q, u1, u2)
               && (NoCollision(add, q, u1, u2) ==> Sum(add, q, u1, u2).Affine?)
    requires q.Affine? && q.x == GX && BitLength(u1) == BitLength(u2) ==> x == 0
    ensures Compared(add, q, u1, u2, v)
  {
    hide Served, LoopX, NoCollision, Sum, BitLength;
  }

  /** The end of the loop, for an abscissa that may be unreduced. */
  lemma CanonicalEnd(add: Adder, q: Point, u1: nat, u2: nat, j: Jacobian, inv: nat)
    requires Served(add, q, u1, u2) && LoopAt(add, q, u1, u2, 0, Canonical(j))
    requires inv < P && (j.z == 0 ==> inv == 0) && (IsPrime(P) && 0 < j.z < P ==> Cong(inv * j.z, 1, P))
    ensures NoCollision(add, q, u1, u2) ==> Sum(add, q, u1, u2).Affine?
    ensures ApplyX(j.x, inv) % N == LoopX(add, q, u1, u2)
  {
    hide Served, LoopAt, NoCollision, Sum, Cong, IsPrime, ApplyX, LoopX, M;
    LoopEnd(add, q, u1, u2, Canonical(j), inv);
    AppliedResidue(j.x, inv);
  }

  lemma TableIntro(add: Adder, qx: nat, qy: nat, sx: nat, sy: nat)
    requires sx < P && sy < P && (M(qx) != GX ==> add(G(), Affine(M(qx), M(qy))) == Affine(sx, sy))
    ensures Table(add, Affine(M(qx), M(qy)), GX, GY, qx, qy, sx, sy)
  {
    hide M;
    TableResidues(sx, sy);
  }

  lemma TableResidues(sx: nat, sy: nat)
    requires sx < P && sy < P
    ensures M(GX) == GX && M(GY) == GY && M(sx) == sx && M(sy) == sy
  {
    hide M;
    BaseBounds();
    MIdem(GX);
    MIdem(GY);
    MIdem(sx);
    MIdem(sy);
  }

  lemma AppliedResidue(x: nat, z: nat)
    ensures ApplyX(x, z) == ApplyX(M(x), z) < P
  {
    hide M;
    FMulResidues(x, FMul(z, z));
    FMulResidues(M(x), FMul(z, z));
    MTwice(x);
  }

  lemma NoBits(n1: nat, n2: nat)
    requires Shr(n1, 0) == 0 && Shr(n2, 0) == 0
    ensures n1 == 0 && n2 == 0
  {
  }

  /** The scalars and the stored sum, and from them the abscissa to compare. */
  method RecoverX(qx: array<Word>, qy: array<Word>, u1: array<Word>, u2: array<Word>, rx: array<Word>, ghost add: Adder)
    requires qx.Length == qy.Length == u1.Length == u2.Length == rx.Length == 8
    requires rx != qx && rx != qy && rx != u1 && rx != u2
    modifies rx
    ensures var q := Affine(M(V(qx)), M(V(qy)));
            V(u1) > 0 || V(u2) > 0 ==> Compared(add, q, V(u1), V(u2), V(rx))
  {
    hide *;
    var ry, z := new Word[8], new Word[8];
    var tx, ty := new Word[8], new Word[8];
    var tz := new Word[8];
    var sx, sy := new Word[8], new Word[8];
    var gx, gy := CurveG();
    StoreSum(sx, sy, qx, qy, tx, ty, z, add);
    DoubleScalarX(u1, u2, rx, ry, z, tx, ty, tz, gx, gy, qx, qy, sx, sy, add);
  }

  /** From the number compared to the decision. */
  lemma AnswersIntro(add: Adder, q: Point, e: nat, r: nat, s: nat, u1: nat, u2: nat, x: nat)
    requires IsPrime(N) && 0 < r < N && 0 < s < N && Scalars(e, r, s, u1, u2)
    requires u1 > 0 || u2 > 0 ==> Compared(add, q, u1, u2, x)
    ensures Answers(add, q, r, x == r, u1, u2)
  {
    hide Served, Sum, Cong, IsPrime, NoCollision, BitLength;
    SecondScalarNonzero(r, s, u2);
  }

  /** r and s must be nonzero and below n. */
  method InRange(r: array<Word>, s: array<Word>) returns (b: bool)
    requires r.Length == s.Length == 8
    ensures b <==> 0 < V(r) < N && 0 < V(s) < N
  {
    hide Val;
    var n := CurveN();
    NValue();
    assert r[..8] == r[..] && s[..8] == s[..] && n[..8] == n[..];
    var zeroR := VliIsZero(r, 8);
    var zeroS := VliIsZero(s, 8);
    if zeroR || zeroS {
      return false;
    }
    var cmpR := VliCmpUnsafe(n, r, 8);
    var cmpS := VliCmpUnsafe(n, s, 8);
    b := cmpR == 1 && cmpS == 1;
  }

  lemma NothingAccepted(add: Adder, q: Point, e: nat, r: nat, s: nat)
    requires !(0 < r < N && 0 < s < N)
    ensures Verdict(add, q, e, r, s, false)
  {
  }

  lemma SameNumber(a: array<Word>, b: array<Word>)
    requires a.Length == b.Length == 8
    ensures V(a) == Val(a[..]) && V(b) == Val(b[..])
  {
    hide Val;
  }

  /** From the scalars and the number compared to the verdict. */
  lemma VerdictOf(add: Adder, q: Point, e: nat, r: nat, s: nat, u1: nat, u2: nat, x: nat)
    requires 0 < r < N && 0 < s < N && u1 < N && u2 < N
    requires IsPrime(N) && 0 < s < N ==> Cong(u1 * s, e, N) && Cong(u2 * s, r, N)
    requires u1 > 0 || u2 > 0 ==> Compared(add, q, u1, u2, x)
    ensures Verdict(add, q, e, r, s, x == r)
  {
    hide IsCurveGroup, OnCurve, Cong, IsPrime, Compared, Answers;
    if Finite(add, q) {
      AnswersIntro(add, q, e, r, s, u1, u2, x);
    }
    VerdictIntro(add, q, e, r, s, x == r, u1, u2);
  }

  /** Verification on given buffers, after the byte strings have been read. */
  method VerifyNumbers(qx: array<Word>, qy: array<Word>, messageHash: array<Byte>, hashSize: nat,
                       r: array<Word>, s: array<Word>, u1: array<Word>, u2: array<Word>, z: array<Word>,
                       rx: array<Word>, ghost add: Adder)
    returns (ok: bool)
    requires qx.Length == qy.Length == r.Length == s.Length == u1.Length == u2.Length == z.Length == rx.Length == 8
    requires {qx, qy, r, s} !! {u1, u2, z, rx} && u1 != u2 && u1 != z && u2 != z && u1 != rx && u2 != rx && z != rx
    requires hashSize <= messageHash.Length
    modifies u1, u2, z, rx
    ensures Verdict(add, Affine(M(V(qx)), M(V(qy))), DigestOf(messageHash[..hashSize]), V(r), V(s), ok)
  {
    hide *;
    assert r in {qx, qy, r, s} && s in {qx, qy, r, s} && qx in {qx, qy, r, s} && qy in {qx, qy, r, s};
    var inRange := InRange(r, s);
    if !inRange {
      NothingAccepted(add, Affine(M(V(qx)), M(V(qy))), DigestOf(messageHash[..hashSize]), V(r), V(s));
      return false;
    }
    ScalarsFor(u1, u2, z, r, s, messageHash, hashSize);
    ghost var n1, n2 := V(u1), V(u2);
    RecoverX(qx, qy, u1, u2, rx, add);
    assert rx[..8] == rx[..] && r[..8] == r[..];
    var diff := VliEqual(rx, r, 8);
    SameNumber(rx, r);
    ok := diff == 0;
    VerdictOf(add, Affine(M(V(qx)), M(V(qy))), DigestOf(messageHash[..hashSize]), V(r), V(s), n1, n2, V(rx));
  }

  /** The point that coordinates stand for when they are taken modulo p. */
  function Reduced(p: Point): Point {
    if p.Infinity? then p else Affine(M(p.x), M(p.y))
  }

  lemma ReducedIs(x: nat, y: nat)
    ensures Reduced(Affine(x, y)) == Affine(M(x), M(y))
  {
  }

  /** uECC_verify. A public key with coordinates at or above p is taken modulo p. */
  method Verify(publicKey: array<Byte>, messageHash: array<Byte>, hashSize: nat, signature: array<Byte>,
                ghost add: Adder)
    returns (ok: bool)
    requires publicKey.Length == 64 && signature.Length == 64 && hashSize <= messageHash.Length
    ensures Verdict(add, Reduced(PointOf(publicKey[..])), DigestOf(messageHash[..hashSize]),
                    NumberOf(signature[0..32]), NumberOf(signature[32..64]), ok)
  {
    hide *;
    var qx, qy := new Word[8], new Word[8];
    var r, s := new Word[8], new Word[8];
    var w1, w2 := new Word[8], new Word[8];
    var z, rx := new Word[8], new Word[8];
    ReadAll(qx, qy, r, s, publicKey, signature);
    ReducedIs(V(qx), V(qy));
    ok := VerifyNumbers(qx, qy, messageHash, hashSize, r, s, w1, w2, z, rx, add);
  }

  method ReadAll(qx: array<Word>, qy: array<Word>, r: array<Word>, s: array<Word>,
                 publicKey: array<Byte>, signature: array<Byte>)
    requires qx.Length == qy.Length == r.Length == s.Length == 8
    requires qx != qy && qx != r && qx != s && qy != r && qy != s && r != s
    requires publicKey.Length == 64 && signature.Length == 64
    modifies qx, qy, r, s
    ensures V(qx) == NumberOf(publicKey[0..32]) && V(qy) == NumberOf(publicKey[32..64])
    ensures Affine(V(qx), V(qy)) == PointOf(publicKey[..])
    ensures V(r) == NumberOf(signature[0..32]) && V(s) == NumberOf(signature[32..64])
  {
    hide Val, WordsOf;
    assert publicKey[..][0..32] == publicKey[0..32] && publicKey[..][32..64] == publicKey[32..64];
    ReadNumber(qx, publicKey, 0);
    ReadNumber(qy, publicKey, 32);
    ReadNumber(r, signature, 0);
    ReadNumber(s, signature, 32);
  }

  /** Equal modulo n after cancelling s. */
  lemma ScalarsCombine(d: nat, k: nat, e: nat, r: nat, s: nat, u1: nat, u2: nat)
    requires IsPrime(N) && 0 < s < N && Cong(s * k, e + r * d, N)
    requires Cong(u1 * s, e, N) && Cong(u2 * s, r, N)
    ensures u2 * d >= 0 && Cong(u1 + u2 * d, k, N)
  {
    hide Cong, IsPrime;
    CongRefl(d, N);
    CongMul(u2 * s, r, d, d, N);
    CongAdd(u1 * s, e, (u2 * s) * d, r * d, N);
    Collect(u1, u2, s, d);
    CongSym(s * k, e + r * d, N);
    CongTrans(s * (u1 + u2 * d), e + r * d, s * k, N);
    SmallNotDivided(s, N);
    CancelPrime(s, u1 + u2 * d, k, N);
  }

  lemma Collect(u1: int, u2: int, s: int, d: int)
    ensures u1 * s + (u2 * s) * d == s * (u1 + u2 * d)
  {
  }

  /** The scalars of a genuine signature add up to the nonce: u1 G + u2 Q = k G. */
  lemma SignatureSum(add: Adder, d: nat, k: nat, e: nat, r: nat, s: nat, u1: nat, u2: nat)
    requires GroupAssumed(add) && Signed(add, d, k, e, r, s) && s > 0
    requires Cong(u1 * s, e, N) && Cong(u2 * s, r, N)
    ensures Sum(add, Mul(add, d, G()), u1, u2) == Mul(add, k, G())
  {
    hide IsCurveGroup, OnCurve, Mul, Cong, IsPrime;
    BaseOnCurve();
    ScalarsCombine(d, k, e, r, s, u1, u2);
    MulMul(add, u2, d, G());
    MulAdd(add, u1, u2 * d, G());
    MulCong(add, u1 + u2 * d, k, G());
  }

  /** The keys that key generation serves have public points other than G and -G. */
  lemma KeyApart(add: Adder, d: nat)
    requires GroupAssumed(add) && Usable(d)
    ensures Finite(add, Mul(add, d, G())) && Mul(add, d, G()).x != GX
  {
    hide IsCurveGroup, ConstantsPrime, OnCurve, Mul;
    BaseOnCurve();
    MulOnCurve(add, d, G());
    MulOne(add, G());
    UsableNumbers(d);
    DistinctX(add, d, 1, G());
  }

  /** A signature made with the matching key is accepted exactly when its r is below n, its s is not zero,
      and no addition of the verification meets equal abscissas. */
  lemma SignedIsAccepted(add: Adder, d: nat, k: nat, e: nat, r: nat, s: nat, ok: bool, u1: nat, u2: nat)
    requires GroupAssumed(add) && Usable(d) && Signed(add, d, k, e, r, s)
    requires Verdict(add, Mul(add, d, G()), e, r, s, ok)
    requires 0 < r < N && 0 < s < N ==> Scalars(e, r, s, u1, u2)
    ensures ok <==> r < N && s != 0 && NoCollision(add, Mul(add, d, G()), u1, u2)
  {
    hide GroupAssumed, OnCurve, Mul, Cong, NoCollision, Sum, Usable;
    KeyApart(add, d);
    if r < N && s != 0 {
      assert Answers(add, Mul(add, d, G()), r, ok, u1, u2);
      SignatureSum(add, d, k, e, r, s, u1, u2);
      DivUnique(r, N, 0, r);
    }
  }
}
