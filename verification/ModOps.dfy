/** Modular addition, subtraction and the long-division reduction of ecc.c. */
module ModOps {
  import opened Words
  import opened Arith
  import opened Vli
  import opened Mult

  lemma ModAddCases(l: nat, r: nat, m: nat, s: nat, c: nat, d: nat, b: nat, q: nat)
    requires r < m < q && l < q && s < q && d < q && c <= 1 && b <= 1
    requires s + c * q == l + r
    requires c == 1 || s >= m
    requires d - b * q == s - m
    ensures d == l + r - m
  {
    assert c == 0 ==> c * q == 0;
    assert b == 0 ==> b * q == 0;
    assert b == 1 ==> b * q == q;
    assert c == 1 ==> c * q == q;
  }

  /** Left need not be reduced; the result is then congruent but may itself be unreduced. */
  method VliModAdd(result: array<Word>, left: array<Word>, right: array<Word>, mod: array<Word>, n: nat)
    requires n <= result.Length && n <= left.Length && n <= right.Length && n <= mod.Length
    requires result != mod
    requires Val(right[..n]) < Val(mod[..n])
    modifies result
    ensures Cong(Val(result[..n]), old(Val(left[..n])) + old(Val(right[..n])), Val(mod[..n]))
    ensures old(Val(left[..n])) < Val(mod[..n]) ==>
              Val(result[..n]) == (old(Val(left[..n])) + old(Val(right[..n]))) % Val(mod[..n])
    ensures forall j :: n <= j < result.Length ==> result[j] == old(result[j])
  {
    hide *;
    ghost var l, r, m := Val(left[..n]), Val(right[..n]), Val(mod[..n]);
    var carry := VliAdd(result, left, right, n);
    ghost var s := Val(result[..n]);
    var cmp := VliCmpUnsafe(mod, result, n);
    if carry != 0 || cmp != 1 {
      var b := VliSub(result, result, mod, n);
      ModAddCases(l, r, m, s, carry, Val(result[..n]), b, Pow(n));
      ModOnce(l, r, m, 1);
    } else {
      NoCarry(s, l + r, carry, Pow(n));
      ModOnce(l, r, m, 0);
    }
  }

  lemma NoCarry(s: nat, x: nat, c: nat, q: nat)
    requires s + c * q == x && c == 0
    ensures s == x
  {
  }

  lemma ModOnce(l: nat, r: nat, m: nat, k: int)
    requires r < m && 0 <= l + r - k * m
    ensures Cong(l + r - k * m, l + r, m)
    ensures l + r - k * m < m ==> l + r - k * m == (l + r) % m
  {
    CongIntro(l + r - k * m, l + r, m, -k);
    if l + r - k * m < m {
      DivUnique(l + r, m, k, l + r - k * m);
    }
  }

  /** Left need not be reduced; the result is then congruent but may itself be unreduced. */
  method VliModSub(result: array<Word>, left: array<Word>, right: array<Word>, mod: array<Word>, n: nat)
    requires n <= result.Length && n <= left.Length && n <= right.Length && n <= mod.Length
    requires result != mod
    requires Val(right[..n]) < Val(mod[..n])
    modifies result
    ensures Cong(Val(result[..n]), old(Val(left[..n])) - old(Val(right[..n])), Val(mod[..n]))
    ensures old(Val(left[..n])) < Val(mod[..n]) ==>
              Val(result[..n]) == (old(Val(left[..n])) - old(Val(right[..n]))) % Val(mod[..n])
    ensures forall j :: n <= j < result.Length ==> result[j] == old(result[j])
  {
    ghost var l, r, m := Val(left[..n]), Val(right[..n]), Val(mod[..n]);
    var borrow := VliSub(result, left, right, n);
    ghost var s := Val(result[..n]);
    if borrow != 0 {
      var c := VliAdd(result, result, mod, n);
      assert l < Pow(n) && m < Pow(n) && Val(result[..n]) < Pow(n) && s < Pow(n);
      hide *;
      assert Val(result[..n]) == l - r + m by {
        ModSubCases(l, r, m, s, Val(result[..n]), c, Pow(n));
      }
      CongIntro(l - r + m, l - r, m, 1);
      DivUnique(l - r, m, -1, l - r + m);
    } else {
      hide *;
      CongRefl(l - r, m);
      if l < m {
        DivUnique(l - r, m, 0, l - r);
      }
    }
  }

  lemma ModSubCases(l: nat, r: nat, m: nat, s: nat, d: nat, c: nat, q: nat)
    requires r < m < q && d < q && s < q && c <= 1
    requires s - q == l - r
    requires d + c * q == s + m
    ensures l < r && d == l - r + m
  {
    assert c == 0 ==> c * q == 0;
    assert c == 1 ==> c * q == q;
  }

  /** A word shifted left by b bits: what stays in the word and what leaves it. */
  lemma ShiftLeftWord(w: Word, b: nat) returns (low: nat)
    requires 0 < b < 32
    ensures w * Pow2(b) == low * Pow2(b) + 0x1_0000_0000 * Shr(w, 32 - b)
    ensures Wrap(w * Pow2(b)) == low * Pow2(b) <= 0x1_0000_0000 - Pow2(b)
    ensures Shr(w, 32 - b) < Pow2(b)
  {
    hide *;
    var h, p, q := Shr(w, 32 - b), Pow2(b), Pow2(32 - b);
    ShrBounds(w, 32 - b);
    low := w - h * q;
    Pow2Add(b, 32 - b);
    Pow2Is32();
    ShiftSplit(w, h, low, p, q);
    DivUnique(w * p, 0x1_0000_0000, h, low * p);
    assert Wrap(w * p) == low * p by {
      WrapIsMod(w * p);
    }
  }

  lemma WrapIsMod(x: int)
    ensures Wrap(x) == x % 0x1_0000_0000
  {
  }

  lemma ShiftSplit(w: nat, h: nat, low: nat, p: nat, q: nat)
    requires w == h * q + low && low < q && p * q == 0x1_0000_0000 && w < 0x1_0000_0000 && p > 0
    ensures w * p == low * p + 0x1_0000_0000 * h
    ensures low * p <= 0x1_0000_0000 - p && h < p
  {
    assert w * p == (h * q) * p + low * p;
    assert (h * q) * p == h * (p * q);
    MulMono(p, low + 1, q);
    assert (low + 1) * p == low * p + p;
    if h >= p {
      MulMono(q, p, h);
    }
  }

  /** The words done so far and the carry hold the low i words of m, shifted. */
  ghost predicate Shifting(done: seq<Word>, carry: Word, m: seq<Word>, i: nat, k: nat, b: nat) {
    && i <= |m| && |done| == k + i && 0 < b < 32 && carry < Pow2(b)
    && Val(done) + carry * Pow(k + i) == (Val(m[..i]) * Pow2(b)) * Pow(k)
  }

  lemma ShiftStart(done: seq<Word>, m: seq<Word>, k: nat, b: nat)
    requires |done| == k && Val(done) == 0 && 0 < b < 32
    ensures Shifting(done, 0, m, 0, k, b)
  {
    ValNone(m[..0]);
    assert Val(m[..0]) * Pow2(b) == 0;
  }

  /** Carries the left shift over one more word. */
  lemma ShiftLeftStep(done: seq<Word>, carry: Word, m: seq<Word>, i: nat, k: nat, b: nat)
    requires i < |m| && Shifting(done, carry, m, i, k, b)
    ensures Wrap(Times(m[i], Pow2(b))) + carry < 0x1_0000_0000
    ensures Shifting(done + [Wrap(Times(m[i], Pow2(b))) + carry], Shr(m[i], 32 - b), m, i + 1, k, b)
  {
    var low := ShiftLeftWord(m[i], b);
    var w: Word := Wrap(m[i] * Pow2(b)) + carry;
    ValStep(m, i);
    ValPush(done, w);
    PowAdd(k, i);
    assert Pow(k + i + 1) == 0x1_0000_0000 * Pow(k + i);
    ShiftWeights(Val(done), carry, w, m[i], low, Shr(m[i], 32 - b), Pow2(b), Pow(k), Pow(i), Val(m[..i]));
  }

  lemma ShiftDone(done: seq<Word>, m: seq<Word>, k: nat, b: nat)
    requires Shifting(done, 0, m, |m|, k, b)
    ensures IsShifted(done, m, k, b)
  {
    assert m[..|m|] == m;
  }

  /** The number s is the number m shifted left by k words and b bits. */
  ghost predicate IsShifted(s: seq<Word>, m: seq<Word>, k: nat, b: nat) {
    Val(s) == (Val(m) * Pow2(b)) * Pow(k)
  }

  lemma ShiftWeights(d: int, c: int, w: int, m: int, low: int, h: int, p: int, pk: int, pi: int, v: int)
    requires d + c * (pk * pi) == (v * p) * pk
    requires w == low * p + c
    requires m * p == low * p + 0x1_0000_0000 * h
    ensures d + w * (pk * pi) + h * (0x1_0000_0000 * (pk * pi)) == ((v + m * pi) * p) * pk
  {
    var q := pk * pi;
    assert (v + m * pi) * p == v * p + (m * p) * pi;
    assert ((m * p) * pi) * pk == (m * p) * q;
    assert (w - c + 0x1_0000_0000 * h) * q == (m * p) * q;
  }

  /** mm = mod shifted left by wordShift words and bitShift bits. */
  method ShiftModulus(mm: array<Word>, mod: array<Word>, n: nat, wordShift: nat, bitShift: nat)
    requires 1 <= n <= mod.Length && mm.Length == wordShift + n && mm != mod && bitShift < 32
    requires Shr(mod[n - 1], 32 - bitShift) == 0
    modifies mm
    ensures IsShifted(mm[..], mod[..n], wordShift, bitShift)
  {
    hide *;
    VliClear(mm, wordShift);
    ghost var m := mod[..n];
    if bitShift > 0 {
      var carry: Word := 0;
      var index := 0;
      assert mm[..wordShift + 0] == mm[..wordShift];
      ShiftStart(mm[..wordShift], m, wordShift, bitShift);
      while index < n
        invariant 0 <= index <= n
        invariant mod[..n] == m
        invariant Shifting(mm[..wordShift + index], carry, m, index, wordShift, bitShift)
        invariant carry == if index == 0 then 0 else Shr(mod[index - 1], 32 - bitShift)
      {
        ghost var done := mm[..wordShift + index];
        ShiftLeftStep(done, carry, m, index, wordShift, bitShift);
        mm[wordShift + index] := Wrap(Times(mod[index], Pow2(bitShift))) + carry;
        assert mm[..wordShift + index + 1] == done + [mm[wordShift + index]];
        carry := Shr(mod[index], 32 - bitShift);
        index := index + 1;
      }
      assert mm[..wordShift + n] == mm[..];
      ShiftDone(mm[..], m, wordShift, bitShift);
    } else {
      var i := 0;
      while i < n
        invariant 0 <= i <= n
        invariant mod[..n] == m
        invariant forall j :: 0 <= j < wordShift ==> mm[j] == 0
        invariant forall j :: 0 <= j < i ==> mm[wordShift + j] == mod[j]
      {
        mm[wordShift + i] := mod[i];
        i := i + 1;
      }
      assert mm[..][wordShift..] == m;
      ShiftByWords(mm[..], m, wordShift);
    }
  }

  lemma ShiftByWords(s: seq<Word>, m: seq<Word>, k: nat)
    requires k <= |s| && s[k..] == m && forall j :: 0 <= j < k ==> s[j] == 0
    ensures IsShifted(s, m, k, 0)
  {
    ValSplit(s, k);
    ZeroVal(s[..k]);
    assert Pow2(0) == 1;
  }
}
