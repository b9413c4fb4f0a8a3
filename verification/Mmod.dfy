/** Reduction by shift and subtract, into two buffers used in turn. */
module Mmod {
  import opened Words
  import opened Arith
  import opened Bits
  import opened Vli
  import opened ModOps

  /** One pass of subtraction on n words, borrow kept in a branch. */
  method SubInto(dest: array<Word>, src: array<Word>, sub: array<Word>, n: nat) returns (borrow: Word)
    requires dest.Length == n && src.Length >= n && sub.Length == n && dest != src && dest != sub
    modifies dest
    ensures borrow <= 1
    ensures Val(dest[..n]) - borrow * Pow(n) == Val(src[..n]) - Val(sub[..n])
  {
    hide *;
    ghost var l, r := src[..n], sub[..n];
    borrow := 0;
    ValNone(dest[..0]);
    ValNone(l[..0]);
    ValNone(r[..0]);
    var i := 0;
    while i < n
      invariant 0 <= i <= n && borrow <= 1
      invariant src[..n] == l && sub[..n] == r
      invariant Val(dest[..i]) - borrow * Pow(i) == Val(l[..i]) - Val(r[..i])
    {
      ghost var done := dest[..i];
      var diff: Word := Wrap(src[i] - sub[i] - borrow);
      SubStep(done, l, r, i, borrow, diff, if diff > l[i] then 1 else 0);
      ghost var cond := CondSet(if diff > l[i] then 1 else 0, borrow, if diff != l[i] then 1 else 0);
      if diff != src[i] {
        borrow := if diff > src[i] then 1 else 0;
      }
      assert borrow == cond;
      dest[i] := diff;
      assert dest[..i + 1] == done + [diff];
      i := i + 1;
    }
    ValFull(l);
    ValFull(r);
  }

  /** Halves a 2n-word number by halving its two n-word halves and moving one bit down. */
  method HalveBoth(mm: array<Word>, n: nat)
    requires 1 <= n && mm.Length == 2 * n
    modifies mm
    ensures Val(mm[..]) == old(Val(mm[..])) / 2
  {
    hide Val, Pow, Wrap;
    ghost var s := mm[..];
    VliRshift1(mm, 0, n);
    ghost var low := mm[0..n];
    ShiftOut(s[n]);
    var high: int := mm[n];
    mm[n - 1] := mm[n - 1] + Wrap(high * 0x8000_0000);
    assert mm[n..2 * n] == s[n..2 * n];
    VliRshift1(mm, n, n);
    JoinHalves(s, mm[..], low, n);
    HalfVal(s, mm[..]);
  }

  lemma JoinHalves(s: seq<Word>, t: seq<Word>, low: seq<Word>, n: nat)
    requires 1 <= n && |s| == |t| == 2 * n
    requires IsHalf(low, s[0..n]) && IsHalf(t[n..2 * n], s[n..2 * n])
    requires forall j :: 0 <= j < n - 1 ==> t[j] == low[j]
    requires t[n - 1] == low[n - 1] + (s[n] % 2) * 0x8000_0000
    ensures IsHalf(t, s)
  {
    forall j | 0 <= j < 2 * n
      ensures t[j] == HalfWord(s, j)
    {
      if j < n {
        assert low[j] == HalfWord(s[0..n], j);
      } else {
        assert t[j] == t[n..2 * n][j - n] == HalfWord(s[n..2 * n], j - n);
      }
    }
  }

  /** The current remainder before the pass for the given shift: congruent, and below twice the multiple. */
  ghost predicate Reducing(cur: nat, mm: nat, p: nat, m: nat, shift: int) {
    && m > 0 && Cong(cur, p, m)
    && (if shift >= 0 then mm == m * Pow2(shift) && cur < 2 * mm else shift == -1 && cur < m)
  }

  lemma ReduceStart(p: nat, mm: nat, s: seq<Word>, m: seq<Word>, n: nat, shift: nat)
    requires 1 <= n == |m| && |s| == 2 * n && shift >= 32 * n && 64 * n > shift
    requires IsShifted(s, m, n, shift - 32 * n) && mm == Val(s)
    requires Shr(Val(m), 64 * n - shift - 1) == 1
    requires p < Pow(2 * n)
    ensures Reducing(p, mm, p, Val(m), shift)
  {
    hide *;
    var v := Val(m);
    ShiftedVal(s, m, n, shift - 32 * n);
    PowIsPow2(n);
    PowIsPow2(2 * n);
    Pow2Add(shift - 32 * n, 32 * n);
    Pow2Add(64 * n - shift - 1, shift);
    Pow2Succ(64 * n - 1);
    ShrBounds(v, 64 * n - shift - 1);
    CongRefl(p, v);
    StartNumbers(v, Pow2(shift - 32 * n), Pow2(32 * n), Pow2(shift), Pow2(64 * n - shift - 1), Pow2(64 * n - 1));
    ReducingIntro(p, mm, p, v, shift);
  }

  lemma ShiftedVal(s: seq<Word>, m: seq<Word>, k: nat, b: nat)
    requires IsShifted(s, m, k, b)
    ensures Val(s) == (Val(m) * Pow2(b)) * Pow(k)
  {
  }

  lemma ReducingIntro(cur: nat, mm: nat, p: nat, m: nat, shift: nat)
    requires m > 0 && Cong(cur, p, m) && mm == m * Pow2(shift) && cur < 2 * mm
    ensures Reducing(cur, mm, p, m, shift)
  {
  }

  lemma StartNumbers(v: nat, a: nat, b: nat, c: nat, lo: nat, top: nat)
    requires a * b == c && lo * c == top && lo <= v && c > 0 && lo > 0
    ensures (v * a) * b == v * c && top <= v * c
  {
    assert (v * a) * b == v * (a * b);
    MulMono(c, lo, v);
  }

  /** One pass: subtract the multiple where it fits, halve it. */
  lemma ReduceStep(cur: nat, mm: nat, p: nat, m: nat, shift: nat)
    requires Reducing(cur, mm, p, m, shift)
    ensures Reducing(if cur < mm then cur else cur - mm, mm / 2, p, m, shift - 1)
  {
    var next := if cur < mm then cur else cur - mm;
    if cur >= mm {
      CongIntro(cur - mm, cur, m, 0 - Pow2(shift));
      CongTrans(cur - mm, cur, p, m);
    }
    if shift > 0 {
      assert mm == 2 * (m * Pow2(shift - 1));
    } else {
      assert mm == m;
    }
  }

  lemma ReduceEnd(cur: nat, mm: nat, p: nat, m: nat)
    requires Reducing(cur, mm, p, m, -1)
    ensures p % m == cur
  {
    CongSym(cur, p, m);
    CongIsMod(p, cur, m);
  }

  lemma BorrowDecides(d: nat, cur: nat, mm: nat, b: nat, q: nat)
    requires b <= 1 && d < q && cur < q && mm < q && d - b * q == cur - mm
    ensures b == (if cur < mm then 1 else 0) && (cur >= mm ==> d == cur - mm)
  {
    assert b == 0 ==> b * q == 0;
    assert b == 1 ==> b * q == q;
  }

  lemma TopWordShift(m: seq<Word>, bits: nat)
    requires |m| > 0 && 32 * (|m| - 1) < bits && Shr(Val(m), bits) == 0
    ensures Shr(m[|m| - 1], bits - 32 * (|m| - 1)) == 0
  {
    hide *;
    var k := |m| - 1;
    TopWord(m, |m|);
    ShrWords(m, k);
    ShrAdd(Val(m), 32 * k, bits - 32 * k);
  }

  /** result = product % mod for any modulus with a nonzero top word; the product buffer is scratch. */
  method VliMmod(result: array<Word>, product: array<Word>, mod: array<Word>, n: nat)
    requires 1 <= n <= mod.Length && product.Length == 2 * n && n <= result.Length
    requires product != mod && mod[n - 1] != 0
    modifies result, product
    ensures old(Val(mod[..n])) > 0
    ensures Val(result[..n]) == old(Val(product[..])) % old(Val(mod[..n]))
    ensures forall j :: n <= j < result.Length && result != product ==> result[j] == old(result[j])
  {
    hide *;
    ghost var m, p := mod[..n], Val(product[..]);
    NonzeroVal(m, n - 1);
    var modMultiple := new Word[2 * n];
    var tmp := new Word[2 * n];
    var v := [tmp, product];
    var bits := VliNumBits(mod, n);
    var shift := n * 2 * 32 - bits;
    var wordShift, bitShift := shift / 32, shift % 32;
    assert wordShift == n && bitShift == 32 * n - bits;
    TopWordShift(m, bits);
    ShiftModulus(modMultiple, mod, n, wordShift, bitShift);
    var index: nat := 1;
    ghost var mm := modMultiple[..];
    ValBelow(product[..]);
    ReduceStart(p, Val(mm), mm, m, n, shift);
    while shift >= 0
      invariant -1 <= shift && index <= 1
      invariant mod[..n] == m
      invariant modMultiple[..] == mm
      invariant Reducing(Val(v[index][..]), Val(mm), p, Val(m), shift)
      invariant result != product ==> result[..] == old(result[..])
    {
      ghost var cur := Val(v[index][..]);
      assert v[index][..2 * n] == v[index][..] && modMultiple[..2 * n] == mm;
      var borrow := SubInto(v[1 - index], v[index], modMultiple, 2 * n);
      assert v[1 - index][..2 * n] == v[1 - index][..];
      ValBelow(v[index][..]);
      ValBelow(v[1 - index][..]);
      ValBelow(mm);
      BorrowDecides(Val(v[1 - index][..]), cur, Val(mm), borrow, Pow(2 * n));
      ReduceStep(cur, Val(mm), p, Val(m), shift);
      index := if index == borrow then 1 else 0;
      HalveBoth(modMultiple, n);
      mm := modMultiple[..];
      shift := shift - 1;
    }
    ReduceEnd(Val(v[index][..]), Val(mm), p, Val(m));
    ModBelow(p, Val(m));
    LowWordsSuffice(v[index][..], m);
    VliSet(result, v[index], n);
  }

  lemma ModBelow(p: nat, m: nat)
    requires m > 0
    ensures p % m < m
  {
  }

  /** A number below one of n words has its value in its low n words. */
  lemma LowWordsSuffice(s: seq<Word>, m: seq<Word>)
    requires |m| <= |s| && Val(s) < Val(m)
    ensures Val(s[..|m|]) == Val(s)
  {
    hide *;
    ValSplit(s, |m|);
    ValBelow(m);
    NoHighPart(Val(s), Val(s[|m|..]), Val(s[..|m|]), Pow(|m|));
  }

  lemma NoHighPart(v: nat, high: nat, low: nat, q: nat)
    requires v == high * q + low && v < q
    ensures low == v
  {
    if high > 0 {
      MulMono(q, 1, high);
    }
  }
}
