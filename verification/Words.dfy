/** Little-endian multi-word integers: 32-bit words and the number a word sequence stands for. */
module Words {
  type Word = w: int | 0 <= w < 0x1_0000_0000

  /** Arithmetic in a 32-bit word drops what does not fit. */
  function Wrap(x: int): (r: Word)
    ensures 0 <= x < 0x1_0000_0000 ==> r == x
    ensures 0x1_0000_0000 <= x < 0x2_0000_0000 ==> r == x - 0x1_0000_0000
    ensures -0x1_0000_0000 <= x < 0 ==> r == x + 0x1_0000_0000
  {
    x % 0x1_0000_0000
  }

  /** 2^32 to the power k. */
  function Pow(k: nat): (r: nat)
    ensures r >= 1
  {
    if k == 0 then 1 else 0x1_0000_0000 * Pow(k - 1)
  }

  /** The number sum s[i] * 2^(32 i). */
  function Val(s: seq<Word>): (v: nat)
    ensures v < Pow(|s|)
  {
    if |s| == 0 then 0
    else
      var k := |s| - 1;
      MulBound(s[k], Pow(k));
      Val(s[..k]) + s[k] * Pow(k)
  }

  lemma ValBelow(s: seq<Word>)
    ensures Val(s) < Pow(|s|)
  {
  }

  lemma MulBound(w: Word, q: nat)
    requires q >= 1
    ensures 0 <= w * q <= (0x1_0000_0000 - 1) * q
  {
  }

  /** Adding one more word at the top. */
  lemma ValStep(s: seq<Word>, i: nat)
    requires i < |s|
    ensures Val(s[..i + 1]) == Val(s[..i]) + s[i] * Pow(i)
  {
    assert s[..i + 1][..i] == s[..i];
  }

  lemma ValPush(s: seq<Word>, w: Word)
    ensures Val(s + [w]) == Val(s) + w * Pow(|s|)
  {
    assert (s + [w])[..|s|] == s;
  }

  lemma ValNone(s: seq<Word>)
    requires |s| == 0
    ensures Val(s) == 0
  {
  }

  lemma ValFull(s: seq<Word>)
    ensures s[..|s|] == s
  {
  }

  /** Two numbers whose words agree above position k differ by what their low parts differ by. */
  lemma {:induction false} ValAgreeAbove(s: seq<Word>, t: seq<Word>, k: nat)
    requires |s| == |t| && k <= |s|
    requires forall j :: k <= j < |s| ==> s[j] == t[j]
    ensures Val(s) - Val(t) == Val(s[..k]) - Val(t[..k])
  {
    if k == |s| {
      assert s[..k] == s && t[..k] == t;
    } else {
      var m := |s| - 1;
      ValAgreeAbove(s[..m], t[..m], k);
      assert s[..m][..k] == s[..k] && t[..m][..k] == t[..k];
    }
  }

  /** The highest differing word decides the order. */
  lemma ValTopDiffers(s: seq<Word>, t: seq<Word>, k: nat)
    requires |s| == |t| && k < |s|
    requires forall j :: k < j < |s| ==> s[j] == t[j]
    requires s[k] < t[k]
    ensures Val(s) < Val(t)
  {
    ValAgreeAbove(s, t, k + 1);
    ValStep(s, k);
    ValStep(t, k);
    assert Val(s[..k]) < Pow(k);
    MulGrows(s[k], t[k], Pow(k));
  }

  lemma MulGrows(a: int, b: int, q: nat)
    requires a < b
    ensures a * q + q <= b * q
  {
    assert (a + 1) * q <= b * q;
  }

  lemma {:induction false} ZeroVal(s: seq<Word>)
    requires forall j :: 0 <= j < |s| ==> s[j] == 0
    ensures Val(s) == 0
  {
    if |s| > 0 {
      ZeroVal(s[..|s| - 1]);
    }
  }

  lemma {:induction false} ValPrefix(s: seq<Word>, k: nat)
    requires k <= |s|
    ensures Val(s[..k]) <= Val(s)
  {
    if k == |s| {
      assert s[..k] == s;
    } else {
      var m := |s| - 1;
      MulBound(s[m], Pow(m));
      ValPrefix(s[..m], k);
      assert s[..m][..k] == s[..k];
    }
  }

  lemma NonzeroVal(s: seq<Word>, k: nat)
    requires k < |s| && s[k] != 0
    ensures Val(s) > 0
  {
    ValPrefix(s, k + 1);
    ValStep(s, k);
    MulGrows(0, s[k], Pow(k));
  }

  /** A word sequence is determined by its length and its number. */
  lemma {:induction false} ValInjective(s: seq<Word>, t: seq<Word>)
    requires |s| == |t| && Val(s) == Val(t)
    ensures s == t
  {
    if |s| > 0 {
      var k := |s| - 1;
      if s[k] < t[k] {
        ValTopDiffers(s, t, k);
      } else if t[k] < s[k] {
        ValTopDiffers(t, s, k);
      }
      ValInjective(s[..k], t[..k]);
      assert s == s[..k] + [s[k]] && t == t[..k] + [t[k]];
    }
  }

  /** Cutting a number at word k. */
  lemma {:induction false} ValSplit(s: seq<Word>, k: nat)
    requires k <= |s|
    ensures Val(s) == Val(s[k..]) * Pow(k) + Val(s[..k])
  {
    if k == |s| {
      assert s[..k] == s && s[k..] == [];
    } else {
      var m := |s| - 1;
      ValSplit(s[..m], k);
      assert s[..m][..k] == s[..k];
      assert s[k..][..m - k] == s[..m][k..];
      PowAdd(k, m - k);
      MulAssoc(s[m], Pow(k), Pow(m - k), Val(s[..m][k..]));
    }
  }

  lemma MulAssoc(w: nat, a: nat, b: nat, v: nat)
    ensures v * a + w * (a * b) == (v + w * b) * a
  {
  }

  lemma {:induction false} PowAdd(a: nat, b: nat)
    ensures Pow(a + b) == Pow(a) * Pow(b)
  {
    if a > 0 {
      PowAdd(a - 1, b);
    }
  }
}
