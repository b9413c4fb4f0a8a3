/** Which regularised scalars the ladder handles, and where it ends for the others. */
module Scalars {
  import opened Arith
  import opened Primes
  import opened CurveGroup
  import opened Ladder

  const TOP: nat := 0x1_00000000_00000000_00000000_00000000_00000000_00000000_00000000_00000000

  /** The four values of the 257-bit scalar at which a ladder step meets opposite points. */
  ghost predicate Exceptional(k: nat) {
    2 * N - 2 <= k <= 2 * N + 1
  }

  lemma ShrMono(k: nat, i: nat, j: nat)
    requires i <= j
    ensures Shr(k, j) <= Shr(k, i)
  {
    ShrAdd(k, i, j - i);
  }

  lemma ShrPositive(k: nat, i: nat)
    requires k >= Pow2(i)
    ensures Shr(k, i) > 0
  {
    ShrZero(k, i);
  }

  lemma Pow2Is256()
    ensures Pow2(256) == TOP
  {
    hide Pow2;
    Pow2Is32();
    Pow2Add(32, 32);
    Pow2Add(64, 64);
    Pow2Add(128, 128);
  }

  lemma NotMultiple(x: int, lo: int)
    requires lo * N < x < (lo + 1) * N
    ensures !Divides(N, x)
  {
    DividesMod(N, x);
    DivUnique(x, N, lo, x - lo * N);
  }

  /** Every prefix of a regularised scalar is regular, except for the four exceptional values. */
  lemma PrefixRegular(k: nat, i: nat)
    requires TOP <= k < TOP + N && i <= 255 && !Exceptional(k)
    ensures Regular(Shr(k, i + 1))
  {
    var m := Shr(k, i + 1);
    Pow2Is256();
    Pow2Mono(i + 1, 256);
    ShrPositive(k, i + 1);
    hide Pow2;
    if i == 0 {
      assert m == k / 2 by {
        assert Shr(k, 0) == k;
      }
      hide Shr;
      if k < 2 * N - 2 {
        NotMultiple(m, 0);
        NotMultiple(m + 1, 0);
      } else {
        NotMultiple(m, 1);
        NotMultiple(m + 1, 1);
      }
      if 2 * m + 1 < 2 * N {
        NotMultiple(2 * m + 1, 1);
      } else {
        NotMultiple(2 * m + 1, 2);
      }
    } else {
      QuarterIs(k);
      ShrMono(k, 2, i + 1);
      if i > 1 {
        ShrMono(k, 3, i + 1);
      }
      hide Shr;
      NotMultiple(m, 0);
      NotMultiple(m + 1, 0);
      if 2 * m + 1 < N {
        NotMultiple(2 * m + 1, 0);
      } else {
        NotMultiple(2 * m + 1, 1);
      }
    }
  }

  lemma QuarterIs(k: nat)
    ensures Shr(k, 1) == k / 2 && Shr(k, 2) == k / 4 && Shr(k, 3) == k / 8
  {
    assert Shr(k, 0) == k;
    assert Shr(k, 1) == k / 2;
    assert Shr(k, 2) == Shr(k, 1) / 2;
    assert Shr(k, 3) == Shr(k, 2) / 2;
  }

  /** For an exceptional scalar all earlier prefixes are regular, and the next to last is (N - 1) / 2. */
  lemma ExceptionalPrefix(k: nat, i: nat)
    requires Exceptional(k) && i <= 255
    ensures TOP <= k < TOP + N
    ensures Shr(k, 2) == (N - 1) / 2
    ensures i >= 2 ==> Regular(Shr(k, i + 1))
  {
    QuarterIs(k);
    if i >= 2 {
      var m := Shr(k, i + 1);
      Pow2Is256();
      Pow2Mono(i + 1, 256);
      ShrPositive(k, i + 1);
      ShrMono(k, 3, i + 1);
      hide Shr, Pow2;
      NotMultiple(m, 0);
      NotMultiple(m + 1, 0);
      NotMultiple(2 * m + 1, 0);
    }
  }
}
