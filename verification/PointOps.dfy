/** The point routines of ecc.c on word arrays, in place. */
module PointOps {
  import opened Words
  import opened Arith
  import opened Bits
  import opened Vli
  import opened ModInv
  import opened P256
  import opened Field
  import opened Formulas

  method SetP(dest: array<Word>, src: array<Word>)
    requires dest.Length == src.Length == 8
    modifies dest
    ensures V(dest) == old(V(src))
  {
    VliSet(dest, src, 8);
    assert dest[..8] == dest[..];
    assert old(src[..8]) == old(src[..]);
  }

  /** X1 becomes half of X1 modulo P. */
  method HalveP(X1: array<Word>)
    requires X1.Length == 8 && V(X1) < P
    modifies X1
    ensures V(X1) == FHalf(old(V(X1)))
  {
    hide Val, Pow, Spread, Bit;
    ghost var w := V(X1);
    assert X1[..8] == X1[..];
    LowestBit(w);
    var odd := VliTestBit(X1, 0);
    if odd {
      var p := CurveP();
      PValue();
      assert p[..8] == p[..];
      var carry := VliAdd(X1, X1, p, 8);
      SpreadIntro(w + P, X1[..8], carry, 8);
      HalveWithCarry(X1, carry, 8, w + P);
    } else {
      SpreadPlain(X1[..8]);
      HalveWithCarry(X1, 0, 8, w);
    }
    assert X1[..8] == X1[..];
  }

  lemma LowestBit(w: nat)
    ensures Bit(w, 0) == w % 2
  {
    assert Shr(w, 0) == w;
  }

  /** The first half of the doubling: A, y^4, the new z, and three times (x + z^2) (x - z^2). */
  method DoubleFront(X1: array<Word>, Y1: array<Word>, Z1: array<Word>, t4: array<Word>, t5: array<Word>)
    requires X1.Length == Y1.Length == Z1.Length == t4.Length == t5.Length == 8
    requires X1 != Y1 && X1 != Z1 && Y1 != Z1 && t4 !in {X1, Y1, Z1} && t5 !in {X1, Y1, Z1} && t4 != t5
    requires V(Z1) < P
    modifies X1, Y1, Z1, t4, t5
    ensures var x, y, z := old(V(X1)), old(V(Y1)), old(V(Z1));
            var yy, zz := FMul(y, y), FMul(z, z);
            var p := FAdd(x, zz);
            var w := FMul(p, FSub(p, FAdd(zz, zz)));
            && V(t5) == FMul(x, yy) && V(t4) == FMul(yy, yy) && V(Y1) == FMul(y, z)
            && V(X1) == FAdd(w, FAdd(w, w))
  {
    hide Val, Pow, M, FAdd, FSub, FMul;
    ModSquareFast(t4, Y1);
    ModMultFast(t5, X1, t4);
    ModSquareFast(t4, t4);
    ModMultFast(Y1, Y1, Z1);
    ModSquareFast(Z1, Z1);
    ModAddP(X1, X1, Z1);
    ghost var a := V(X1);
    ModAddP(Z1, Z1, Z1);
    FSubResidue(a, V(Z1));
    ModSubP(Z1, X1, Z1);
    FMulResidues(a, V(Z1));
    ModMultFast(X1, X1, Z1);
    ModAddP(Z1, X1, X1);
    ModAddP(X1, X1, Z1);
  }

  /** Only the Z coordinate has to be reduced: uECC_verify may start from the public key as it was given. */
  method DoubleJacobianDefault(X1: array<Word>, Y1: array<Word>, Z1: array<Word>)
    requires X1.Length == Y1.Length == Z1.Length == 8 && X1 != Y1 && X1 != Z1 && Y1 != Z1
    requires V(Z1) < P
    modifies X1, Y1, Z1
    ensures Jacobian(V(X1), V(Y1), V(Z1)) == old(Double(Jacobian(V(X1), V(Y1), V(Z1))))
  {
    hide Val, Pow, FHalf, FAdd, FSub, FMul;
    assert Z1[..8] == Z1[..];
    var zero := VliIsZero(Z1, 8);
    if zero {
      return;
    }
    var t4 := new Word[8];
    var t5 := new Word[8];
    DoubleFront(X1, Y1, Z1, t4, t5);
    DoubleBack(X1, Y1, Z1, t4, t5);
  }

  /** The second half: half of that is the slope; the new point from the slope, A and y^4. */
  method DoubleBack(X1: array<Word>, Y1: array<Word>, Z1: array<Word>, t4: array<Word>, t5: array<Word>)
    requires X1.Length == Y1.Length == Z1.Length == t4.Length == t5.Length == 8
    requires X1 != Y1 && X1 != Z1 && Y1 != Z1 && t4 !in {X1, Y1, Z1} && t5 !in {X1, Y1, Z1} && t4 != t5
    requires V(X1) < P && V(Y1) < P && V(t4) < P && V(t5) < P
    modifies X1, Y1, Z1, t4, t5
    ensures var h, A, yyyy := FHalf(old(V(X1))), old(V(t5)), old(V(t4));
            && V(X1) == FSub(FSub(FMul(h, h), A), A)
            && V(Y1) == FSub(FMul(h, FSub(A, V(X1))), yyyy)
            && V(Z1) == old(V(Y1))
  {
    hide Val, Pow, FHalf, FAdd, FSub, FMul;
    HalveBelow(V(X1));
    HalveP(X1);
    ModSquareFast(Z1, X1);
    ModSubP(Z1, Z1, t5);
    ModSubP(Z1, Z1, t5);
    ModSubP(t5, t5, Z1);
    ModMultFast(X1, X1, t5);
    ModSubP(t4, X1, t4);
    SetP(X1, Z1);
    SetP(Z1, Y1);
    SetP(Y1, t4);
  }

  lemma HalveBelow(a: nat)
    requires a < P
    ensures FHalf(a) < P
  {
  }

  method ApplyZ(X1: array<Word>, Y1: array<Word>, Z: array<Word>)
    requires X1.Length == Y1.Length == Z.Length == 8 && X1 != Y1 && X1 != Z && Y1 != Z
    modifies X1, Y1
    ensures V(X1) == ApplyX(old(V(X1)), V(Z)) && V(Y1) == ApplyY(old(V(Y1)), V(Z))
  {
    hide Val, Pow, FAdd, FSub, FMul;
    var t1 := new Word[8];
    ModSquareFast(t1, Z);
    ModMultFast(X1, X1, t1);
    ModMultFast(t1, t1, Z);
    ModMultFast(Y1, Y1, t1);
  }

  /** The second point need not be reduced. */
  method XYcZAdd(X1: array<Word>, Y1: array<Word>, X2: array<Word>, Y2: array<Word>)
    requires X1.Length == Y1.Length == X2.Length == Y2.Length == 8
    requires X1 != Y1 && X1 != X2 && X1 != Y2 && Y1 != X2 && Y1 != Y2 && X2 != Y2
    requires V(X1) < P && V(Y1) < P
    modifies X1, Y1, X2, Y2
    ensures CoZ(V(X1), V(Y1), V(X2), V(Y2)) == old(CoZAdd(CoZ(V(X1), V(Y1), V(X2), V(Y2))))
    ensures V(X1) < P && V(Y1) < P && V(X2) < P && V(Y2) < P
  {
    hide Val, Pow, M, FAdd, FSub, FMul;
    var t5 := new Word[8];
    ModSubP(t5, X2, X1);
    FMulResidues(V(t5), V(t5));
    ModSquareFast(t5, t5);
    ModMultFast(X1, X1, t5);
    ModMultFast(X2, X2, t5);
    ModSubP(Y2, Y2, Y1);
    ghost var s := V(Y2);
    FMulResidues(s, s);
    ModSquareFast(t5, Y2);
    ModSubP(t5, t5, X1);
    ModSubP(t5, t5, X2);
    ModSubP(X2, X2, X1);
    ModMultFast(Y1, Y1, X2);
    ModSubP(X2, X1, t5);
    FMulResidues(s, V(X2));
    ModMultFast(Y2, Y2, X2);
    ModSubP(Y2, Y2, Y1);
    SetP(X2, t5);
  }

  /** The first half of XYcZ_addC: the scaled abscissas, their sum, and the sums and products of ordinates. */
  method AddCFront(X1: array<Word>, Y1: array<Word>, X2: array<Word>, Y2: array<Word>, t5: array<Word>, t6: array<Word>)
    requires X1.Length == Y1.Length == X2.Length == Y2.Length == t5.Length == t6.Length == 8
    requires X1 != Y1 && X1 != X2 && X1 != Y2 && Y1 != X2 && Y1 != Y2 && X2 != Y2
    requires t5 !in {X1, Y1, X2, Y2} && t6 !in {X1, Y1, X2, Y2} && t5 != t6
    requires V(X1) < P && V(Y1) < P && V(X2) < P && V(Y2) < P
    modifies X1, Y1, X2, Y2, t5, t6
    ensures var x1, y1, x2, y2 := old(V(X1)), old(V(Y1)), old(V(X2)), old(V(Y2));
            var A := FMul(FSub(x2, x1), FSub(x2, x1));
            var b, cc := FMul(x1, A), FMul(x2, A);
            && V(X1) == b && V(t6) == FAdd(b, cc) && V(Y1) == FMul(y1, FSub(cc, b))
            && V(t5) == FAdd(y2, y1) && V(Y2) == FSub(y2, y1)
  {
    hide Val, Pow, FAdd, FSub, FMul;
    ModSubP(t5, X2, X1);
    ModSquareFast(t5, t5);
    ModMultFast(X1, X1, t5);
    ModMultFast(X2, X2, t5);
    ModAddP(t5, Y2, Y1);
    ModSubP(Y2, Y2, Y1);
    ModSubP(t6, X2, X1);
    ModMultFast(Y1, Y1, t6);
    ModAddP(t6, X1, X2);
  }

  /** The second half: the sum, then the difference, from the values of the first half. */
  method AddCBack(X1: array<Word>, Y1: array<Word>, X2: array<Word>, Y2: array<Word>,
                  t5: array<Word>, t6: array<Word>, t7: array<Word>)
    requires X1.Length == Y1.Length == X2.Length == Y2.Length == t5.Length == t6.Length == t7.Length == 8
    requires X1 != Y1 && X1 != X2 && X1 != Y2 && Y1 != X2 && Y1 != Y2 && X2 != Y2
    requires t5 !in {X1, Y1, X2, Y2} && t6 !in {X1, Y1, X2, Y2} && t7 !in {X1, Y1, X2, Y2}
    requires t5 != t6 && t5 != t7 && t6 != t7
    requires V(X1) < P && V(Y1) < P && V(Y2) < P && V(t5) < P && V(t6) < P
    modifies X1, Y1, X2, Y2, t6, t7
    ensures var b, e, s, p, bc := old(V(X1)), old(V(Y1)), old(V(Y2)), old(V(t5)), old(V(t6));
            && V(X2) == FSub(FMul(s, s), bc) && V(Y2) == FSub(FMul(s, FSub(b, V(X2))), e)
            && V(X1) == FSub(FMul(p, p), bc) && V(Y1) == FSub(FMul(FSub(V(X1), b), p), e)
  {
    hide Val, Pow, FAdd, FSub, FMul;
    ModSquareFast(X2, Y2);
    ModSubP(X2, X2, t6);
    ModSubP(t7, X1, X2);
    ModMultFast(Y2, Y2, t7);
    ModSubP(Y2, Y2, Y1);
    ModSquareFast(t7, t5);
    ModSubP(t7, t7, t6);
    ModSubP(t6, t7, X1);
    ModMultFast(t6, t6, t5);
    ModSubP(Y1, t6, Y1);
    SetP(X1, t7);
  }

  method XYcZAddC(X1: array<Word>, Y1: array<Word>, X2: array<Word>, Y2: array<Word>)
    requires X1.Length == Y1.Length == X2.Length == Y2.Length == 8
    requires X1 != Y1 && X1 != X2 && X1 != Y2 && Y1 != X2 && Y1 != Y2 && X2 != Y2
    requires V(X1) < P && V(Y1) < P && V(X2) < P && V(Y2) < P
    modifies X1, Y1, X2, Y2
    ensures CoZ(V(X1), V(Y1), V(X2), V(Y2)) == old(CoZAddC(CoZ(V(X1), V(Y1), V(X2), V(Y2))))
    ensures V(X1) < P && V(Y1) < P && V(X2) < P && V(Y2) < P
  {
    hide Val, Pow, FAdd, FSub, FMul;
    var t5 := new Word[8];
    var t6 := new Word[8];
    var t7 := new Word[8];
    AddCFront(X1, Y1, X2, Y2, t5, t6);
    AddCBack(X1, Y1, X2, Y2, t5, t6, t7);
  }
}
