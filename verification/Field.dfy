/** Arithmetic modulo the P-256 prime: on integers, and on eight-word arrays in place. */
module Field {
  import opened Words
  import opened Arith
  import opened Mult
  import opened ModOps
  import opened P256

  /** The residue of an integer, as the number that adding or subtracting P leads to. */
  function M(x: int): (r: nat)
    ensures r < P
    decreases if x < 0 then P - x else x
  {
    if x < 0 then M(x + P) else if x < P then x else M(x - P)
  }

  function FAdd(a: int, b: int): (r: nat) ensures r < P { M(a + b) }

  function FSub(a: int, b: int): (r: nat) ensures r < P { M(a - b) }

  function FMul(a: int, b: int): (r: nat) ensures r < P { M(a * b) }

  lemma {:induction false} MCong(x: int)
    ensures Cong(M(x), x, P) && Cong(x, M(x), P)
    decreases if x < 0 then P - x else x
  {
    hide Cong;
    if 0 <= x < P {
      CongRefl(x, P);
    } else {
      var y := if x < 0 then x + P else x - P;
      MCong(y);
      CongIntro(y, x, P, if x < 0 then 1 else -1);
      CongTrans(M(x), y, x, P);
      CongSym(M(x), x, P);
    }
  }

  lemma MIsMod(x: int)
    ensures M(x) == x % P
  {
    hide Cong, M;
    MCong(x);
    CongMod(x, P);
    CongTrans(M(x), x, x % P, P);
    CongSmall(M(x), x % P, P);
  }

  lemma MEqual(x: int, y: int)
    ensures Cong(x, y, P) <==> M(x) == M(y)
  {
    MIsMod(x);
    MIsMod(y);
    hide M;
    ModsAgree(x, y, P);
  }

  lemma MIdem(x: int)
    requires 0 <= x < P
    ensures M(x) == x
  {
    DivUnique(x, P, 0, x);
  }

  // Residues may be taken early or late.
  lemma MAdd(a: int, b: int)
    ensures FAdd(M(a), M(b)) == M(a + b)
  {
    MCong(a);
    MCong(b);
    CongAdd(M(a), a, M(b), b, P);
    MEqual(M(a) + M(b), a + b);
  }

  lemma MSub(a: int, b: int)
    ensures FSub(M(a), M(b)) == M(a - b)
  {
    MCong(a);
    MCong(b);
    CongSub(M(a), a, M(b), b, P);
    MEqual(M(a) - M(b), a - b);
  }

  lemma MMul(a: int, b: int)
    ensures FMul(M(a), M(b)) == M(a * b)
  {
    MCong(a);
    MCong(b);
    CongMul(M(a), a, M(b), b, P);
    MEqual(M(a) * M(b), a * b);
  }

  lemma FMulResidues(a: int, b: int)
    ensures FMul(a, b) == FMul(M(a), M(b))
  {
    hide M;
    MMul(a, b);
  }

  lemma FAddResidue(a: int, b: int)
    ensures FAdd(a, b) == FAdd(M(a), b)
  {
    hide M;
    MAdd(a, b);
    MAdd(M(a), b);
    MTwice(a);
  }

  lemma FSubResidue(a: int, b: int)
    ensures FSub(a, b) == FSub(M(a), b)
  {
    hide M;
    MSub(a, b);
    MSub(M(a), b);
    MTwice(a);
  }

  lemma MTwice(a: int)
    ensures M(M(a)) == M(a)
  {
    MIdem(M(a));
  }

  /** The number in an eight-word array. */
  function V(a: array<Word>): nat
    reads a
    requires a.Length == 8
  {
    Val(a[..])
  }

  // The left operand of the next two need not be reduced; the result is then right modulo P.

  method ModAddP(result: array<Word>, left: array<Word>, right: array<Word>)
    requires result.Length == left.Length == right.Length == 8
    requires V(right) < P
    modifies result
    ensures M(V(result)) == FAdd(old(V(left)), old(V(right)))
    ensures old(V(left)) < P ==> V(result) == FAdd(old(V(left)), old(V(right)))
  {
    hide Val, Pow, M, Cong;
    ghost var l: int, r: int := V(left), V(right);
    MIsMod(l + r);
    var p := CurveP();
    PValue();
    assert p[..8] == p[..] && left[..8] == left[..] && right[..8] == right[..];
    VliModAdd(result, left, right, p, 8);
    assert p[..8] == p[..] && result[..8] == result[..];
    MEqual(V(result), l + r);
  }

  method ModSubP(result: array<Word>, left: array<Word>, right: array<Word>)
    requires result.Length == left.Length == right.Length == 8
    requires V(right) < P
    modifies result
    ensures M(V(result)) == FSub(old(V(left)), old(V(right)))
    ensures old(V(left)) < P ==> V(result) == FSub(old(V(left)), old(V(right)))
  {
    hide Val, Pow, M, Cong;
    ghost var l: int, r: int := V(left), V(right);
    MIsMod(l - r);
    var p := CurveP();
    PValue();
    assert p[..8] == p[..] && left[..8] == left[..] && right[..8] == right[..];
    VliModSub(result, left, right, p, 8);
    assert p[..8] == p[..] && result[..8] == result[..];
    MEqual(V(result), l - r);
  }

  method ModMultFast(result: array<Word>, left: array<Word>, right: array<Word>)
    requires result.Length == left.Length == right.Length == 8
    modifies result
    ensures V(result) == FMul(old(V(left)), old(V(right)))
  {
    hide Val, Pow, M;
    ghost var l: int, r: int := V(left), V(right);
    MIsMod(l * r);
    var product := new Word[16];
    assert left[..8] == left[..] && right[..8] == right[..];
    VliMult(product, left, right, 8);
    assert product[..16] == product[..];
    VliMmodFast(result, product);
  }

  method ModSquareFast(result: array<Word>, left: array<Word>)
    requires result.Length == left.Length == 8
    modifies result
    ensures V(result) == FMul(old(V(left)), old(V(left)))
  {
    ModMultFast(result, left, left);
  }
}
