/** The word-array routines of ecc.c: addition, subtraction, comparison, shifting. */
module Vli {
  import opened Words

  /** Selection without a branch: the OR of two products by 0 or 1, one of which is zero. */
  function CondSet(pTrue: Word, pFalse: Word, cond: Word): (r: Word)
    requires cond <= 1
    ensures r == if cond == 1 then pTrue else pFalse
  {
    (if cond == 1 then pTrue else 0) + (if cond == 0 then pFalse else 0)
  }

  method VliClear(vli: array<Word>, n: nat)
    requires n <= vli.Length
    modifies vli
    ensures Val(vli[..n]) == 0
    ensures forall j :: 0 <= j < n ==> vli[j] == 0
    ensures forall j :: n <= j < vli.Length ==> vli[j] == old(vli[j])
  {
    var i := 0;
    while i < n
      invariant 0 <= i <= n
      invariant forall j :: 0 <= j < i ==> vli[j] == 0
      invariant forall j :: n <= j < vli.Length ==> vli[j] == old(vli[j])
    {
      vli[i] := 0;
      i := i + 1;
    }
    ZeroVal(vli[..n]);
  }

  /** The OR of all words is zero exactly when the number is; the OR is kept as "some bit seen". */
  method VliIsZero(vli: array<Word>, n: nat) returns (r: bool)
    requires n <= vli.Length
    ensures r <==> Val(vli[..n]) == 0
  {
    var bits := false;
    var i := 0;
    while i < n
      invariant 0 <= i <= n
      invariant bits <==> exists j :: 0 <= j < i && vli[j] != 0
    {
      bits := bits || vli[i] != 0;
      i := i + 1;
    }
    if bits {
      var j :| 0 <= j < n && vli[j] != 0;
      assert vli[..n][j] != 0;
      NonzeroVal(vli[..n], j);
    } else {
      ZeroVal(vli[..n]);
    }
    r := !bits;
  }

  method VliSet(dest: array<Word>, src: array<Word>, n: nat)
    requires n <= dest.Length && n <= src.Length
    modifies dest
    ensures dest[..n] == old(src[..n])
    ensures forall j :: n <= j < dest.Length ==> dest[j] == old(dest[j])
  {
    var i := 0;
    while i < n
      invariant 0 <= i <= n
      invariant forall j :: 0 <= j < i ==> dest[j] == old(src[j])
      invariant forall j :: i <= j < src.Length ==> src[j] == old(src[j])
      invariant forall j :: n <= j < dest.Length ==> dest[j] == old(dest[j])
    {
      dest[i] := src[i];
      i := i + 1;
    }
  }

  method VliCmpUnsafe(left: array<Word>, right: array<Word>, n: nat) returns (r: int)
    requires n <= left.Length && n <= right.Length
    ensures r == if Val(left[..n]) > Val(right[..n]) then 1
                 else if Val(left[..n]) < Val(right[..n]) then -1 else 0
  {
    var i := n - 1;
    while i >= 0
      invariant -1 <= i < n
      invariant forall j :: i < j < n ==> left[j] == right[j]
    {
      if left[i] > right[i] {
        ValTopDiffers(right[..n], left[..n], i);
        return 1;
      } else if left[i] < right[i] {
        ValTopDiffers(left[..n], right[..n], i);
        return -1;
      }
      i := i - 1;
    }
    assert left[..n] == right[..n];
    return 0;
  }

  /** 0 when equal, 1 otherwise. */
  method VliEqual(left: array<Word>, right: array<Word>, n: nat) returns (r: Word)
    requires n <= left.Length && n <= right.Length
    ensures r == if Val(left[..n]) == Val(right[..n]) then 0 else 1
  {
    var diff := false;
    var i := n - 1;
    while i >= 0
      invariant -1 <= i < n
      invariant diff <==> exists j :: i < j < n && left[j] != right[j]
    {
      diff := diff || left[i] != right[i];
      i := i - 1;
    }
    if diff {
      var j :| 0 <= j < n && left[j] != right[j];
      assert left[..n][j] != right[..n][j];
      if Val(left[..n]) == Val(right[..n]) {
        ValInjective(left[..n], right[..n]);
      }
    } else {
      assert left[..n] == right[..n];
    }
    r := if diff then 1 else 0;
  }

  /** The carry chosen without a branch is the carry of the column. */
  lemma AddColumn(l: Word, r: Word, c: Word, sum: Word, val: Word)
    requires c <= 1 && sum == Wrap(l + r + c) && val == if sum < l then 1 else 0
    ensures sum + 0x1_0000_0000 * CondSet(val, c, if sum != l then 1 else 0) == l + r + c
  {
  }

  lemma SubColumn(l: Word, r: Word, b: Word, diff: Word, val: Word)
    requires b <= 1 && diff == Wrap(l - r - b) && val == if diff > l then 1 else 0
    ensures diff - 0x1_0000_0000 * CondSet(val, b, if diff != l then 1 else 0) == l - r - b
  {
  }

  /** One column added at weight Pow(i), for a carry (or, negated, a borrow). */
  lemma ColumnStep(lo: int, a: int, b: int, l: int, r: int, s: int, c: int, d: int, i: nat)
    requires lo + c * Pow(i) == a + b
    requires s + 0x1_0000_0000 * d == l + r + c
    ensures lo + s * Pow(i) + d * Pow(i + 1) == (a + l * Pow(i)) + (b + r * Pow(i))
  {
    var q := Pow(i);
    assert Pow(i + 1) == 0x1_0000_0000 * q;
    Distribute(s, d, l, r, c, q);
  }

  lemma BorrowStep(lo: int, a: int, b: int, l: int, r: int, s: int, c: int, d: int, i: nat)
    requires lo - c * Pow(i) == a - b
    requires s - 0x1_0000_0000 * d == l - r - c
    ensures lo + s * Pow(i) - d * Pow(i + 1) == (a + l * Pow(i)) - (b + r * Pow(i))
  {
    ColumnStep(lo, a, -b, l, -r, s, -c, -d, i);
  }

  /** The loop invariant of an addition, carried over one column. */
  lemma AddStep(done: seq<Word>, l: seq<Word>, r: seq<Word>, i: nat, c: Word, sum: Word, val: Word)
    requires |done| == i < |l| && i < |r| && c <= 1
    requires Val(done) + c * Pow(i) == Val(l[..i]) + Val(r[..i])
    requires sum == Wrap(l[i] + r[i] + c) && val == if sum < l[i] then 1 else 0
    ensures Val(done + [sum]) + CondSet(val, c, if sum != l[i] then 1 else 0) * Pow(i + 1)
            == Val(l[..i + 1]) + Val(r[..i + 1])
  {
    AddColumn(l[i], r[i], c, sum, val);
    ColumnStep(Val(done), Val(l[..i]), Val(r[..i]), l[i], r[i], sum, c,
               CondSet(val, c, if sum != l[i] then 1 else 0), i);
    ValStep(l, i);
    ValStep(r, i);
    ValPush(done, sum);
  }

  lemma SubStep(done: seq<Word>, l: seq<Word>, r: seq<Word>, i: nat, b: Word, diff: Word, val: Word)
    requires |done| == i < |l| && i < |r| && b <= 1
    requires Val(done) - b * Pow(i) == Val(l[..i]) - Val(r[..i])
    requires diff == Wrap(l[i] - r[i] - b) && val == if diff > l[i] then 1 else 0
    ensures Val(done + [diff]) - CondSet(val, b, if diff != l[i] then 1 else 0) * Pow(i + 1)
            == Val(l[..i + 1]) - Val(r[..i + 1])
  {
    SubColumn(l[i], r[i], b, diff, val);
    BorrowStep(Val(done), Val(l[..i]), Val(r[..i]), l[i], r[i], diff, b,
               CondSet(val, b, if diff != l[i] then 1 else 0), i);
    ValStep(l, i);
    ValStep(r, i);
    ValPush(done, diff);
  }

  lemma Distribute(s: int, d: int, l: int, r: int, c: int, q: int)
    requires s + 0x1_0000_0000 * d == l + r + c
    ensures s * q + d * (0x1_0000_0000 * q) == l * q + r * q + c * q
  {
    assert s == l + r + c - 0x1_0000_0000 * d;
  }

  /** result = left + right; any two of the three arrays may be the same one. */
  method VliAdd(result: array<Word>, left: array<Word>, right: array<Word>, n: nat) returns (carry: Word)
    requires n <= result.Length && n <= left.Length && n <= right.Length
    modifies result
    ensures carry <= 1
    ensures Val(result[..n]) + carry * Pow(n) == old(Val(left[..n])) + old(Val(right[..n]))
    ensures forall j :: n <= j < result.Length ==> result[j] == old(result[j])
  {
    hide *;
    ghost var l, r := left[..n], right[..n];
    carry := 0;
    var i := 0;
    ValNone(result[..0]);
    ValNone(l[..0]);
    ValNone(r[..0]);
    while i < n
      invariant 0 <= i <= n && carry <= 1
      invariant forall j :: i <= j < n ==> left[j] == l[j] && right[j] == r[j]
      invariant forall j :: n <= j < result.Length ==> result[j] == old(result[j])
      invariant Val(result[..i]) + carry * Pow(i) == Val(l[..i]) + Val(r[..i])
    {
      var sum: Word := Wrap(left[i] + right[i] + carry);
      var val: Word := if sum < left[i] then 1 else 0;
      ghost var done := result[..i];
      AddStep(done, l, r, i, carry, sum, val);
      carry := CondSet(val, carry, if sum != left[i] then 1 else 0);
      result[i] := sum;
      assert result[..i + 1] == done + [sum];
      i := i + 1;
    }
    ValFull(l);
    ValFull(r);
  }

  /** result = left - right; any two of the three arrays may be the same one. */
  method VliSub(result: array<Word>, left: array<Word>, right: array<Word>, n: nat) returns (borrow: Word)
    requires n <= result.Length && n <= left.Length && n <= right.Length
    modifies result
    ensures borrow <= 1
    ensures Val(result[..n]) - borrow * Pow(n) == old(Val(left[..n])) - old(Val(right[..n]))
    ensures forall j :: n <= j < result.Length ==> result[j] == old(result[j])
  {
    hide *;
    ghost var l, r := left[..n], right[..n];
    borrow := 0;
    var i := 0;
    ValNone(result[..0]);
    ValNone(l[..0]);
    ValNone(r[..0]);
    while i < n
      invariant 0 <= i <= n && borrow <= 1
      invariant forall j :: i <= j < n ==> left[j] == l[j] && right[j] == r[j]
      invariant forall j :: n <= j < result.Length ==> result[j] == old(result[j])
      invariant Val(result[..i]) - borrow * Pow(i) == Val(l[..i]) - Val(r[..i])
    {
      var diff: Word := Wrap(left[i] - right[i] - borrow);
      var val: Word := if diff > left[i] then 1 else 0;
      ghost var done := result[..i];
      SubStep(done, l, r, i, borrow, diff, val);
      borrow := CondSet(val, borrow, if diff != left[i] then 1 else 0);
      result[i] := diff;
      assert result[..i + 1] == done + [diff];
      i := i + 1;
    }
    ValFull(l);
    ValFull(r);
  }

  /** Without a branch on the words: the sign of left - right from the borrow and a zero test. */
  method VliCmp(left: array<Word>, right: array<Word>, n: nat) returns (r: int)
    requires n <= left.Length && n <= right.Length
    ensures r == if Val(left[..n]) > Val(right[..n]) then 1
                 else if Val(left[..n]) < Val(right[..n]) then -1 else 0
  {
    var tmp := new Word[n];
    var neg := VliSub(tmp, left, right, n);
    var equal := VliIsZero(tmp, n);
    r := (if equal then 0 else 1) - 2 * (if neg != 0 then 1 else 0);
    assert Val(tmp[..n]) < Pow(n);
  }
}
