/** The points of P-256 as a group: what is assumed of the chord-and-tangent law, and scalar multiples. */
module CurveGroup {
  import opened Arith
  import opened Primes
  import opened P256
  import opened Field
  import opened Refine
  import opened Closure

  /** The order of the curve. */
  const N: nat := 0xFFFFFFFF_00000000_FFFFFFFF_FFFFFFFF_BCE6FAAD_A7179E84_F3B9CAC2_FC632551

  datatype Point = Infinity | Affine(x: nat, y: nat)

  ghost predicate OnCurve(p: Point) {
    p.Affine? ==> p.x < P && p.y < P && OnCurveAt(p.x, p.y, 1)
  }

  function Neg(p: Point): Point {
    if p.Infinity? then p else Affine(p.x, FSub(0, p.y))
  }

  type Adder = (Point, Point) -> Point

  /** k times p. */
  ghost function Mul(add: Adder, k: nat, p: Point): Point {
    if k == 0 then Infinity else add(Mul(add, k - 1, p), p)
  }

  /** What is assumed of the group law: it is the chord-and-tangent law, it is commutative and associative,
      reflection is the inverse, and the group has order N. */
  ghost predicate IsCurveGroup(add: Adder) {
    && (forall p, q :: OnCurve(p) && OnCurve(q) ==> OnCurve(add(p, q)) && add(p, q) == add(q, p))
    && (forall p, q, r :: OnCurve(p) && OnCurve(q) && OnCurve(r) ==> add(add(p, q), r) == add(p, add(q, r)))
    && (forall p :: OnCurve(p) ==> add(p, Infinity) == p && add(p, Neg(p)) == Infinity)
    && (forall p, q :: OnCurve(p) && OnCurve(q) && p.Affine? && q.Affine? && p.x != q.x ==>
          add(p, q).Affine? && IsChord(p.x, p.y, q.x, q.y, add(p, q).x, add(p, q).y))
    && (forall p :: OnCurve(p) && p.Affine? && p.y != 0 ==>
          add(p, p).Affine? && IsTangent(p.x, p.y, add(p, p).x, add(p, p).y))
    && (forall p :: OnCurve(p) ==> Mul(add, N, p) == Infinity)
  }

  /** The two number-theoretic facts about the constants. */
  ghost predicate ConstantsPrime() {
    IsPrime(P) && IsPrime(N)
  }

  // One instance of each assumption at a time.
  lemma Closed(add: Adder, p: Point, q: Point)
    requires IsCurveGroup(add) && OnCurve(p) && OnCurve(q)
    ensures OnCurve(add(p, q)) && add(p, q) == add(q, p)
  {
    hide Mul, OnCurve;
  }

  lemma Assoc(add: Adder, p: Point, q: Point, r: Point)
    requires IsCurveGroup(add) && OnCurve(p) && OnCurve(q) && OnCurve(r)
    ensures add(add(p, q), r) == add(p, add(q, r))
  {
    hide Mul, OnCurve;
  }

  lemma Zero(add: Adder, p: Point)
    requires IsCurveGroup(add) && OnCurve(p)
    ensures add(p, Infinity) == p && add(Infinity, p) == p && add(p, Neg(p)) == Infinity
  {
    Closed(add, p, Infinity);
    hide Mul, OnCurve;
  }

  lemma Chord(add: Adder, p: Point, q: Point)
    requires IsCurveGroup(add) && OnCurve(p) && OnCurve(q) && p.Affine? && q.Affine? && p.x != q.x
    ensures add(p, q).Affine? && IsChord(p.x, p.y, q.x, q.y, add(p, q).x, add(p, q).y)
  {
    hide Mul, OnCurve, IsChord;
  }

  lemma Tangent(add: Adder, p: Point)
    requires IsCurveGroup(add) && OnCurve(p) && p.Affine? && p.y != 0
    ensures add(p, p).Affine? && IsTangent(p.x, p.y, add(p, p).x, add(p, p).y)
  {
    hide Mul, OnCurve, IsTangent;
  }

  lemma Order(add: Adder, p: Point)
    requires IsCurveGroup(add) && OnCurve(p)
    ensures Mul(add, N, p) == Infinity
  {
    hide Mul, OnCurve;
  }

  lemma NegOnCurve(add: Adder, p: Point)
    requires IsCurveGroup(add) && OnCurve(p)
    ensures OnCurve(Neg(p))
  {
    hide OnCurveAt, M, IsCurveGroup;
    if p.Affine? {
      var y: int := p.y;
      ReflectedOnCurve(p.x, y, 1);
      Residues(p.x, 0 - y, 1);
      OnCurveResidues(p.x, 0 - y, 1, M(p.x), M(0 - y), M(1));
      MIdem(p.x);
      MIdem(1);
    }
  }

  lemma {:induction false} MulOnCurve(add: Adder, k: nat, p: Point)
    requires IsCurveGroup(add) && OnCurve(p)
    ensures OnCurve(Mul(add, k, p))
  {
    hide IsCurveGroup, OnCurve;
    if k == 0 {
      InfinityOnCurve();
    } else {
      MulOnCurve(add, k - 1, p);
      Closed(add, Mul(add, k - 1, p), p);
    }
  }

  lemma InfinityOnCurve()
    ensures OnCurve(Infinity)
  {
  }

  lemma {:induction false} MulAdd(add: Adder, j: nat, k: nat, p: Point)
    requires IsCurveGroup(add) && OnCurve(p)
    ensures Mul(add, j + k, p) == add(Mul(add, j, p), Mul(add, k, p))
  {
    hide IsCurveGroup, OnCurve;
    MulOnCurve(add, j, p);
    if k == 0 {
      Zero(add, Mul(add, j, p));
    } else {
      MulAdd(add, j, k - 1, p);
      MulOnCurve(add, k - 1, p);
      Assoc(add, Mul(add, j, p), Mul(add, k - 1, p), p);
    }
  }

  lemma {:induction false} MulMul(add: Adder, j: nat, k: nat, p: Point)
    requires IsCurveGroup(add) && OnCurve(p)
    ensures j * k >= 0 && Mul(add, j * k, p) == Mul(add, j, Mul(add, k, p))
  {
    hide IsCurveGroup, OnCurve;
    if j > 0 {
      MulMul(add, j - 1, k, p);
      assert j * k == (j - 1) * k + k;
      MulAdd(add, (j - 1) * k, k, p);
    }
  }

  lemma {:induction false} MulInfinity(add: Adder, k: nat)
    requires IsCurveGroup(add)
    ensures Mul(add, k, Infinity) == Infinity
  {
    hide IsCurveGroup, OnCurve;
    if k > 0 {
      MulInfinity(add, k - 1);
      InfinityOnCurve();
      Zero(add, Infinity);
    }
  }

  lemma MulWraps(add: Adder, i: nat, k: nat, p: Point)
    requires IsCurveGroup(add) && OnCurve(p)
    ensures i * N >= 0 && Mul(add, i * N + k, p) == Mul(add, k, p)
  {
    hide IsCurveGroup, OnCurve, Mul;
    MulMul(add, i, N, p);
    Order(add, p);
    MulInfinity(add, i);
    MulAdd(add, i * N, k, p);
    MulOnCurve(add, k, p);
    Zero(add, Mul(add, k, p));
  }

  /** Scalars count modulo the order. */
  lemma MulCong(add: Adder, j: nat, k: nat, p: Point)
    requires IsCurveGroup(add) && OnCurve(p) && Cong(j, k, N)
    ensures Mul(add, j, p) == Mul(add, k, p)
  {
    hide IsCurveGroup, OnCurve, Mul;
    var i := CongWitness(j, k, N);
    if i >= 0 {
      MulWraps(add, i, k, p);
    } else {
      var n := -i;
      assert k == n * N + j;
      MulWraps(add, n, j, p);
    }
  }

  /** Only multiples of the order take a finite point to infinity. */
  lemma OrderExact(add: Adder, k: nat, p: Point)
    requires IsCurveGroup(add) && ConstantsPrime() && OnCurve(p) && p.Affine?
    ensures Mul(add, k, p) == Infinity <==> Divides(N, k)
  {
    hide IsCurveGroup, OnCurve;
    if Divides(N, k) {
      DividesMod(N, k);
      MulCong(add, k, 0, p);
    } else if Mul(add, k, p) == Infinity {
      var x := PrimeInverse(k, N);
      MulMul(add, x, k, p);
      MulInfinity(add, x);
      assert x * k == k * x;
      MulCong(add, k * x, 1, p);
      MulOne(add, p);
      assert false;
    }
  }

  lemma MulOne(add: Adder, p: Point)
    requires IsCurveGroup(add) && OnCurve(p)
    ensures Mul(add, 1, p) == p
  {
    hide IsCurveGroup, OnCurve;
    assert Mul(add, 0, p) == Infinity;
    Zero(add, p);
  }

  /** Two ordinates with the same square are equal or opposite. */
  lemma SameSquare(py: nat, qy: nat)
    requires IsPrime(P) && py < P && qy < P && Cong(py * py, qy * qy, P)
    ensures qy == py || qy == FSub(0, py)
  {
    hide *;
    SquareFactors(py, qy, P);
    PrimeDividesProduct(py + qy, py - qy, P);
    if Divides(P, py - qy) {
      DividesIsCong(py, qy, P);
      CongSmall(py, qy, P);
    } else {
      DividesIsCong(qy, 0 - py, P);
      MEqual(qy, 0 - py);
      MIdem(qy);
      OppositeIs(py);
    }
  }

  lemma SquareFactors(a: int, b: int, p: int)
    requires p > 0 && Cong(a * a, b * b, p)
    ensures Divides(p, (a + b) * (a - b))
  {
    hide Divides;
    assert a * a - b * b == (a + b) * (a - b);
  }

  lemma DividesIsCong(a: int, b: int, p: int)
    requires p > 0
    ensures Divides(p, a - b) <==> Cong(a, b, p)
  {
    hide Divides;
  }

  lemma OppositeIs(y: int)
    ensures FSub(0, y) == M(0 - y)
  {
    hide M;
  }

  lemma SquaresAgree(p: Point, q: Point)
    ensures OnCurve(p) && OnCurve(q) && p.Affine? && q.Affine? && p.x == q.x ==>
              p.y < P && q.y < P && Cong(p.y * p.y, q.y * q.y, P)
  {
    if OnCurve(p) && OnCurve(q) && p.Affine? && q.Affine? && p.x == q.x {
      hide Cong, Cubic, Alpha, Beta;
      var c := Cubic(p.x, Alpha(1), Beta(1));
      CongSym(q.y * q.y, c, P);
      CongTrans(p.y * p.y, c, q.y * q.y, P);
    }
  }

  /** Points with the same abscissa are equal or opposite. */
  lemma SameX(add: Adder, p: Point, q: Point)
    requires IsCurveGroup(add) && ConstantsPrime() && OnCurve(p) && OnCurve(q) && p.Affine? && q.Affine? && p.x == q.x
    ensures q == p || q == Neg(p)
  {
    hide OnCurve, IsCurveGroup, Cong, IsPrime;
    SquaresAgree(p, q);
    SameSquare(p.y, q.y);
  }

  /** A point with y = 0 would have order two; there is none. */
  lemma NoOrderTwo(add: Adder, p: Point)
    requires IsCurveGroup(add) && ConstantsPrime() && OnCurve(p) && p.Affine?
    ensures p.y != 0
  {
    hide IsCurveGroup, OnCurve;
    if p.y == 0 {
      assert Neg(p) == p by {
        MIdem(0);
      }
      Zero(add, p);
      MulOne(add, p);
      MulAdd(add, 1, 1, p);
      OrderExact(add, 2, p);
      SmallNotDivided(2, N);
      assert false;
    }
  }

  /** Multiples with different, non-opposite scalars have different abscissas. */
  lemma DistinctX(add: Adder, j: nat, k: nat, p: Point)
    requires IsCurveGroup(add) && ConstantsPrime() && OnCurve(p) && p.Affine? && j >= k
    requires !Divides(N, j) && !Divides(N, k) && !Divides(N, j + k) && !Divides(N, j - k)
    ensures var q, r := Mul(add, j, p), Mul(add, k, p);
            q.Affine? && r.Affine? && q.x != r.x
  {
    hide IsCurveGroup, OnCurve, Divides, ConstantsPrime;
    var q, r, d := Mul(add, j, p), Mul(add, k, p), Mul(add, j - k, p);
    OrderExact(add, j, p);
    OrderExact(add, k, p);
    OrderExact(add, j + k, p);
    OrderExact(add, j - k, p);
    MulOnCurve(add, j, p);
    MulOnCurve(add, k, p);
    MulOnCurve(add, j - k, p);
    MulAdd(add, j - k, k, p);
    MulAdd(add, j, k, p);
    if q.x == r.x {
      SameX(add, r, q);
      if q == r {
        CancelRight(add, d, r);
      } else {
        Zero(add, r);
        Closed(add, q, r);
      }
      assert false;
    }
  }

  lemma CancelRight(add: Adder, d: Point, r: Point)
    requires IsCurveGroup(add) && OnCurve(d) && OnCurve(r) && add(d, r) == r
    ensures d == Infinity
  {
    hide IsCurveGroup, OnCurve;
    NegOnCurve(add, r);
    Assoc(add, d, r, Neg(r));
    Zero(add, r);
    Zero(add, d);
  }

  /** The difference of two multiples. */
  lemma MulNeg(add: Adder, j: nat, k: nat, p: Point)
    requires IsCurveGroup(add) && OnCurve(p) && j >= k
    ensures add(Mul(add, j, p), Neg(Mul(add, k, p))) == Mul(add, j - k, p)
  {
    hide IsCurveGroup, OnCurve;
    var d, r := Mul(add, j - k, p), Mul(add, k, p);
    MulOnCurve(add, j - k, p);
    MulOnCurve(add, k, p);
    MulAdd(add, j - k, k, p);
    NegOnCurve(add, r);
    Assoc(add, d, r, Neg(r));
    Zero(add, r);
    Zero(add, d);
  }

  /** ... and its opposite. */
  lemma NegSwap(add: Adder, q: Point, r: Point)
    requires IsCurveGroup(add) && OnCurve(q) && OnCurve(r)
    ensures add(q, Neg(r)) == Neg(add(r, Neg(q)))
  {
    hide IsCurveGroup, OnCurve;
    NegOnCurve(add, q);
    NegOnCurve(add, r);
    var d := add(r, Neg(q));
    Closed(add, r, Neg(q));
    NegOnCurve(add, d);
    var e := add(q, Neg(r));
    Closed(add, q, Neg(r));
    // d + e = 0, and so e = -d.
    Assoc(add, d, q, Neg(r));
    Assoc(add, r, Neg(q), q);
    Closed(add, Neg(q), q);
    Zero(add, q);
    Zero(add, r);
    Closed(add, d, e);
    InverseUnique(add, d, e);
  }

  lemma InverseUnique(add: Adder, d: Point, e: Point)
    requires IsCurveGroup(add) && OnCurve(d) && OnCurve(e) && add(d, e) == Infinity
    ensures e == Neg(d)
  {
    hide IsCurveGroup, OnCurve;
    NegOnCurve(add, d);
    Assoc(add, Neg(d), d, e);
    Closed(add, Neg(d), d);
    Zero(add, d);
    Zero(add, Neg(d));
    Zero(add, e);
  }
}
