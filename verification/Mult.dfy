/** Product-scanning multiplication: every digit of the product from one column of word products. */
module Mult {
  import opened Words
  import opened Arith

  /** The three-word accumulator. */
  function Acc(r0: int, r1: int, r2: int): int {
    r0 + 0x1_0000_0000 * r1 + 0x1_0000_0000_0000_0000 * r2
  }

  function Times(a: nat, b: nat): nat {
    NatProduct(a, b);
    a * b
  }

  /** The word products l[i] * r[k - i] that meet in column k, for i < m. */
  ghost function Column(l: seq<Word>, r: seq<Word>, k: int, m: nat): (c: nat)
    requires m <= |l|
  {
    if m == 0 then 0
    else Column(l, r, k, m - 1) + (if 0 <= k - (m - 1) < |r| then Times(l[m - 1], r[k - (m - 1)]) else 0)
  }

  /** The first n columns, each at its weight. */
  ghost function Columns(l: seq<Word>, r: seq<Word>, n: nat, m: nat): nat
    requires m <= |l|
  {
    if n == 0 then 0
    else
      NatProduct(Column(l, r, n - 1, m), Pow(n - 1));
      Columns(l, r, n - 1, m) + Column(l, r, n - 1, m) * Pow(n - 1)
  }

  lemma NatProduct(a: nat, b: nat)
    ensures a * b >= 0
  {
  }

  /** One more word of l adds that word times the part of r the n columns reach. */
  lemma {:induction false} ColumnsStep(l: seq<Word>, r: seq<Word>, n: nat, m: nat)
    requires m < |l|
    ensures var reach := if n <= m then 0 else if n - m <= |r| then n - m else |r|;
            Columns(l, r, n, m + 1) == Columns(l, r, n, m) + (l[m] * Pow(m)) * Val(r[..reach])
  {
    if n == 0 {
      ValNone(r[..0]);
    } else {
      ColumnsStep(l, r, n - 1, m);
      var j := n - 1 - m;
      if 0 <= j < |r| {
        ValStep(r, j);
        PowAdd(m, j);
        Weigh(Column(l, r, n - 1, m), l[m], r[j], Pow(m), Pow(j), Val(r[..j]));
      }
    }
  }

  lemma Weigh(c: int, a: int, b: int, p: int, q: int, v: int)
    ensures (c + a * b) * (p * q) + (a * p) * v == c * (p * q) + (a * p) * (v + b * q)
  {
    assert (a * b) * (p * q) == (a * p) * (b * q);
  }

  /** All columns together are the product. */
  lemma {:induction false} ColumnsAreProduct(l: seq<Word>, r: seq<Word>, n: nat, m: nat)
    requires m <= |l| && n >= m + |r|
    ensures Columns(l, r, n, m) == Times(Val(l[..m]), Val(r))
  {
    if m == 0 {
      NoColumns(l, r, n);
      ValNone(l[..0]);
    } else {
      ColumnsAreProduct(l, r, n, m - 1);
      ColumnsStep(l, r, n, m - 1);
      ValStep(l, m - 1);
      assert r[..|r|] == r;
      DistributeRight(Val(l[..m - 1]), l[m - 1] * Pow(m - 1), Val(r));
    }
  }

  lemma DistributeRight(a: int, b: int, v: int)
    ensures (a + b) * v == a * v + b * v
  {
  }

  lemma {:induction false} NoColumns(l: seq<Word>, r: seq<Word>, n: nat)
    ensures Columns(l, r, n, 0) == 0
  {
    if n > 0 {
      NoColumns(l, r, n - 1);
    }
  }

  lemma {:induction false} ColumnBound(l: seq<Word>, r: seq<Word>, k: int, m: nat)
    requires m <= |l|
    ensures Column(l, r, k, m) <= m * 0xFFFF_FFFE_0000_0001
  {
    if m > 0 {
      ColumnBound(l, r, k, m - 1);
      if 0 <= k - (m - 1) < |r| {
        WordProduct(l[m - 1], r[k - (m - 1)]);
      }
    }
  }

  lemma WordProduct(a: nat, b: nat)
    requires a < 0x1_0000_0000 && b < 0x1_0000_0000
    ensures Times(a, b) <= 0xFFFF_FFFE_0000_0001
  {
    assert a * b <= 0xFFFF_FFFF * b by {
      MulMono(b, a, 0xFFFF_FFFF);
    }
  }

  /** Words of l past the diagonal add nothing to column k. */
  lemma {:induction false} ColumnEnds(l: seq<Word>, r: seq<Word>, k: nat, m: nat)
    requires k < m <= |l|
    ensures Column(l, r, k, m) == Column(l, r, k, k + 1)
  {
    if m > k + 1 {
      ColumnEnds(l, r, k, m - 1);
    }
  }

  /** Words of l too low for column k to meet a word of r add nothing. */
  lemma {:induction false} ColumnStarts(l: seq<Word>, r: seq<Word>, k: nat, m: nat)
    requires m <= |l| && m <= k + 1 - |r|
    ensures Column(l, r, k, m) == 0
  {
    if m > 0 {
      ColumnStarts(l, r, k, m - 1);
    }
  }

  /** Adds a * b to the accumulator; the carry out of the low two words is recognised by comparison. */
  method MulAdd(a: Word, b: Word, r0: Word, r1: Word, r2: Word) returns (s0: Word, s1: Word, s2: Word)
    requires Acc(r0, r1, r2) + Times(a, b) < 0x1_0000_0000_0000_0000_0000_0000
    ensures Acc(s0, s1, s2) == Acc(r0, r1, r2) + Times(a, b)
  {
    var p := Times(a, b);
    WordProduct(a, b);
    var r01 := r1 * 0x1_0000_0000 + r0;
    r01 := (r01 + p) % 0x1_0000_0000_0000_0000;
    s2 := Wrap(r2 + (if r01 < p then 1 else 0));
    s1 := r01 / 0x1_0000_0000;
    s0 := r01 % 0x1_0000_0000;
  }

  /** Storing the low word of a finished column and shifting the accumulator down. */
  lemma ColumnDone(l: seq<Word>, r: seq<Word>, done: seq<Word>, k: nat, acc: int, r0: Word, r1: Word, r2: Word)
    requires |done| == k
    requires Val(done) + acc * Pow(k) == Columns(l, r, k, |l|)
    requires Acc(r0, r1, r2) == acc + Column(l, r, k, |l|)
    requires 0 <= acc <= |l| * 0xFFFF_FFFF
    ensures Val(done + [r0]) + Acc(r1, r2, 0) * Pow(k + 1) == Columns(l, r, k + 1, |l|)
    ensures 0 <= Acc(r1, r2, 0) <= |l| * 0xFFFF_FFFF
  {
    ValPush(done, r0);
    ColumnBound(l, r, k, |l|);
    var c, q := Column(l, r, k, |l|), Pow(k);
    assert r0 + 0x1_0000_0000 * Acc(r1, r2, 0) == acc + c;
    ShiftDown(r0, Acc(r1, r2, 0), acc, c, q);
  }

  lemma ShiftDown(r0: int, a: int, acc: int, c: int, q: int)
    requires r0 + 0x1_0000_0000 * a == acc + c
    ensures r0 * q + a * (0x1_0000_0000 * q) == acc * q + c * q
  {
    assert (r0 + 0x1_0000_0000 * a) * q == (acc + c) * q;
  }

  /** There is room in three words for a column of at most 2^32 products and the carry into it. */
  lemma Room(l: seq<Word>, r: seq<Word>, k: nat, i: nat, acc: int)
    requires i < |l| <= 0x1_0000_0000
    requires 0 <= acc <= |l| * 0xFFFF_FFFF
    ensures 0 <= k - i < |r| ==> acc + Column(l, r, k, i) + Times(l[i], r[k - i]) < 0x1_0000_0000_0000_0000_0000_0000
  {
    ColumnBound(l, r, k, i + 1);
  }

  lemma NoneYet(l: seq<Word>, r: seq<Word>)
    ensures Columns(l, r, 0, |l|) == 0 && Acc(0, 0, 0) == 0
  {
  }

  /** result = left * right on 2n words. */
  method VliMult(result: array<Word>, left: array<Word>, right: array<Word>, n: nat)
    requires 1 <= n <= left.Length && n <= right.Length && n <= 0x1_0000_0000
    requires 2 * n <= result.Length && result != left && result != right
    modifies result
    ensures Val(result[..2 * n]) == Times(Val(left[..n]), Val(right[..n]))
    ensures forall j :: 2 * n <= j < result.Length ==> result[j] == old(result[j])
  {
    hide *;
    ghost var l, r := left[..n], right[..n];
    var r0: Word, r1: Word, r2: Word := 0, 0, 0;
    NoneYet(l, r);
    ValNone(result[..0]);
    var k := 0;
    while k < n
      invariant 0 <= k <= n && r2 == 0
      invariant left[..n] == l && right[..n] == r
      invariant 0 <= Acc(r0, r1, 0) <= n * 0xFFFF_FFFF
      invariant Val(result[..k]) + Acc(r0, r1, 0) * Pow(k) == Columns(l, r, k, n)
      invariant forall j :: 2 * n <= j < result.Length ==> result[j] == old(result[j])
    {
      ghost var done, acc := result[..k], Acc(r0, r1, 0);
      ColumnZero(l, r, k);
      var i := 0;
      while i <= k
        modifies {}
        invariant 0 <= i <= k + 1
        invariant Acc(r0, r1, r2) == acc + Column(l, r, k, i)
      {
        Room(l, r, k, i, acc);
        ColumnNext(l, r, k, i);
        r0, r1, r2 := MulAdd(left[i], right[k - i], r0, r1, r2);
        i := i + 1;
      }
      ColumnEnds(l, r, k, n);
      ColumnDone(l, r, done, k, acc, r0, r1, r2);
      assert result[..k] == done;
      result[k] := r0;
      assert result[..k + 1] == done + [r0];
      r0, r1, r2 := r1, r2, 0;
      k := k + 1;
    }
    while k < 2 * n - 1
      invariant n <= k <= 2 * n - 1 && r2 == 0
      invariant left[..n] == l && right[..n] == r
      invariant 0 <= Acc(r0, r1, 0) <= n * 0xFFFF_FFFF
      invariant Val(result[..k]) + Acc(r0, r1, 0) * Pow(k) == Columns(l, r, k, n)
      invariant forall j :: 2 * n <= j < result.Length ==> result[j] == old(result[j])
    {
      ghost var done, acc := result[..k], Acc(r0, r1, 0);
      var i := k + 1 - n;
      ColumnStarts(l, r, k, i);
      while i < n
        modifies {}
        invariant k + 1 - n <= i <= n
        invariant Acc(r0, r1, r2) == acc + Column(l, r, k, i)
      {
        Room(l, r, k, i, acc);
        ColumnNext(l, r, k, i);
        r0, r1, r2 := MulAdd(left[i], right[k - i], r0, r1, r2);
        i := i + 1;
      }
      ColumnDone(l, r, done, k, acc, r0, r1, r2);
      assert result[..k] == done;
      result[k] := r0;
      assert result[..k + 1] == done + [r0];
      r0, r1, r2 := r1, r2, 0;
      k := k + 1;
    }
    ghost var done := result[..k];
    LastWord(l, r, done, r0, r1);
    result[2 * n - 1] := r0;
    assert result[..2 * n] == done + [r0];
  }

  lemma ColumnZero(l: seq<Word>, r: seq<Word>, k: int)
    ensures Column(l, r, k, 0) == 0
  {
  }

  lemma ColumnNext(l: seq<Word>, r: seq<Word>, k: int, i: nat)
    requires i < |l| && 0 <= k - i < |r|
    ensures Column(l, r, k, i + 1) == Column(l, r, k, i) + Times(l[i], r[k - i])
  {
  }

  /** After the last column the accumulator holds one word: the product has no more. */
  lemma LastWord(l: seq<Word>, r: seq<Word>, done: seq<Word>, r0: Word, r1: Word)
    requires |l| == |r| >= 1 && |done| == 2 * |l| - 1
    requires Val(done) + Acc(r0, r1, 0) * Pow(|done|) == Columns(l, r, |done|, |l|)
    ensures Val(done + [r0]) == Times(Val(l), Val(r))
  {
    hide *;
    var k := |done|;
    ColumnsAreProduct(l, r, k + 1, |l|);
    assert l[..|l|] == l;
    ColumnStarts(l, r, k, |l|);
    LastColumn(l, r, k);
    ValPush(done, r0);
    ProductFits(l, r);
    OneWordLeft(Val(done), r0, r1, Pow(k));
    assert Acc(r0, r1, 0) * Pow(k) == r0 * Pow(k);
  }

  lemma ProductFits(l: seq<Word>, r: seq<Word>)
    requires |l| == |r| >= 1
    ensures Times(Val(l), Val(r)) < 0x1_0000_0000 * Pow(2 * |l| - 1)
  {
    PowAdd(|l|, |l|);
    assert Pow(2 * |l|) == 0x1_0000_0000 * Pow(2 * |l| - 1);
    ProductBelow(Val(l), Val(r), Pow(|l|));
  }

  lemma LastColumn(l: seq<Word>, r: seq<Word>, k: nat)
    requires Column(l, r, k, |l|) == 0
    ensures Columns(l, r, k + 1, |l|) == Columns(l, r, k, |l|)
  {
  }

  lemma ProductBelow(a: nat, b: nat, q: nat)
    requires a < q && b < q
    ensures a * b < q * q
  {
    assert a * b <= a * q;
    assert a * q < q * q;
  }

  lemma OneWordLeft(v: nat, r0: Word, r1: Word, q: nat)
    requires q >= 1 && v + Acc(r0, r1, 0) * q < 0x1_0000_0000 * q
    ensures Acc(r0, r1, 0) == r0
  {
    if r1 > 0 {
      MulMono(q, 0x1_0000_0000, Acc(r0, r1, 0));
    }
  }
}
