/** Bits of multi-word integers: testing, counting, halving. */
module Bits {
  import opened Words
  import opened Arith

  method VliTestBit(vli: array<Word>, bit: nat) returns (r: bool)
    requires bit / 32 < vli.Length
    ensures r <==> Bit(Val(vli[..]), bit) == 1
  {
    r := Shr(vli[bit / 32], bit % 32) % 2 != 0;
    BitOfVal(vli[..], bit);
  }

  lemma {:induction false} PowIsPow2(k: nat)
    ensures Pow(k) == Pow2(32 * k)
  {
    if k > 0 {
      PowIsPow2(k - 1);
      Pow2Add(32, 32 * (k - 1));
      Pow2Is32();
    }
  }

  lemma ValFirst(t: seq<Word>)
    requires |t| > 0
    ensures Val(t) == t[0] + 0x1_0000_0000 * Val(t[1..])
  {
    hide *;
    ValSplit(t, 1);
    ValStep(t, 0);
    ValNone(t[..0]);
    PowOne();
    Replace(Pow(0), 1, t[0]);
    Replace(Pow(1), 0x1_0000_0000, Val(t[1..]));
  }

  lemma Replace(p: int, c: int, x: int)
    requires p == c
    ensures x * p == c * x && p * x == c * x
  {
  }

  lemma PowOne()
    ensures Pow(0) == 1 && Pow(1) == 0x1_0000_0000
  {
    assert Pow(0) == 1;
  }

  /** Shifting by one word drops it. */
  lemma {:induction false} ShrWords(s: seq<Word>, k: nat)
    requires k <= |s|
    ensures Shr(Val(s), 32 * k) == Val(s[k..])
  {
    if k == 0 {
      assert s[0..] == s;
    } else {
      ShrWords(s, k - 1);
      ShrAdd(Val(s), 32 * (k - 1), 32);
      ValFirst(s[k - 1..]);
      assert s[k - 1..][1..] == s[k..];
      ShrWord(s[k - 1], Val(s[k..]));
    }
  }

  lemma ShrWord(w: Word, h: nat)
    ensures Shr(w + 0x1_0000_0000 * h, 32) == h
  {
    Pow2Is32();
    ShrOfSum(w, h, 32, 32);
    ShrZero(w, 32);
  }

  /** The tested bit is the bit of the number. */
  lemma BitOfVal(s: seq<Word>, i: nat)
    requires i / 32 < |s|
    ensures Shr(s[i / 32], i % 32) % 2 == Bit(Val(s), i)
  {
    var k, j := i / 32, i % 32;
    assert 32 * k + j == i;
    ShrWords(s, k);
    ShrAdd(Val(s), 32 * k, j);
    ValFirst(s[k..]);
    LowBitOfWord(s[k], Val(s[k..][1..]), j);
  }

  lemma EvenPart(a: int, z: int)
    ensures (a + 2 * z) % 2 == a % 2
  {
  }

  /** What lies above a word does not reach the bits below 32. */
  lemma LowBitOfWord(w: nat, h: nat, j: nat)
    requires j < 32
    ensures Shr(w + 0x1_0000_0000 * h, j) % 2 == Shr(w, j) % 2
  {
    hide *;
    Pow2Is32();
    ShrOfSum(w, h, 32, j);
    DoublePow2(31 - j, h);
    EvenPart(Shr(w, j), Pow2(31 - j) * h);
  }

  /** One word of a sequence shifted right by one bit. */
  function HalfWord(s: seq<Word>, j: nat): Word
    requires j < |s|
  {
    s[j] / 2 + (if j + 1 < |s| then (s[j + 1] % 2) * 0x8000_0000 else 0)
  }

  ghost predicate IsHalf(t: seq<Word>, s: seq<Word>) {
    |t| == |s| && forall j :: 0 <= j < |s| ==> t[j] == HalfWord(s, j)
  }

  lemma {:induction false} HalfPrefix(s: seq<Word>, t: seq<Word>, k: nat)
    requires IsHalf(t, s) && 0 < k <= |s|
    ensures 2 * Val(t[..k]) + s[0] % 2 == Val(s[..k]) + (if k < |s| then (s[k] % 2) * Pow(k) else 0)
  {
    ValStep(s, k - 1);
    ValStep(t, k - 1);
    var c := if k < |s| then s[k] % 2 else 0;
    HalvedWord(t[k - 1], s[k - 1], c);
    HalfColumn(t[k - 1], s[k - 1], c, Pow(k - 1));
    if k == 1 {
      assert s[..0] == [] && t[..0] == [];
    } else {
      HalfPrefix(s, t, k - 1);
    }
  }

  lemma HalvedWord(t: Word, s: Word, c: nat)
    requires t == s / 2 + c * 0x8000_0000
    ensures 2 * t == s - s % 2 + c * 0x1_0000_0000
  {
  }

  lemma HalfColumn(t: int, s: int, c: int, q: int)
    requires 2 * t == s - s % 2 + c * 0x1_0000_0000
    ensures 2 * (t * q) == s * q - (s % 2) * q + c * (0x1_0000_0000 * q)
  {
    var e := s % 2;
    assert (2 * t) * q == (s - e + c * 0x1_0000_0000) * q;
  }

  /** Shifting the words halves the number. */
  lemma HalfVal(s: seq<Word>, t: seq<Word>)
    requires IsHalf(t, s) && |s| > 0
    ensures 2 * Val(t) + s[0] % 2 == Val(s) && Val(t) == Val(s) / 2 && Val(s) % 2 == s[0] % 2
  {
    HalfPrefix(s, t, |s|);
    assert s[..|s|] == s && t[..|s|] == t;
  }

  /** In place vli >> 1 on n words from position lo. */
  method VliRshift1(vli: array<Word>, lo: nat, n: nat)
    requires lo + n <= vli.Length
    modifies vli
    ensures IsHalf(vli[lo..lo + n], old(vli[lo..lo + n]))
    ensures n > 0 ==> Val(vli[lo..lo + n]) == old(Val(vli[lo..lo + n])) / 2
    ensures forall j :: 0 <= j < lo || lo + n <= j < vli.Length ==> vli[j] == old(vli[j])
  {
    ghost var s := vli[lo..lo + n];
    var carry: Word := 0;
    var i := n;
    while i > 0
      invariant 0 <= i <= n
      invariant carry == if i < n then (s[i] % 2) * 0x8000_0000 else 0
      invariant forall j :: 0 <= j < i ==> vli[lo + j] == s[j]
      invariant forall j :: i <= j < n ==> vli[lo + j] == HalfWord(s, j)
      invariant forall j :: 0 <= j < lo || lo + n <= j < vli.Length ==> vli[j] == old(vli[j])
    {
      i := i - 1;
      var temp := vli[lo + i];
      vli[lo + i] := temp / 2 + carry;
      carry := Wrap(temp * 0x8000_0000);
      assert carry == (temp % 2) * 0x8000_0000 by {
        ShiftOut(temp);
      }
    }
    if n > 0 {
      HalfVal(s, vli[lo..lo + n]);
    }
  }

  lemma ShiftOut(temp: Word)
    ensures Wrap(temp * 0x8000_0000) == (temp % 2) * 0x8000_0000
  {
    DivUnique(temp * 0x8000_0000, 0x1_0000_0000, temp / 2, (temp % 2) * 0x8000_0000);
  }

  /** The number of words up to the highest nonzero one. */
  method VliNumDigits(vli: array<Word>, maxWords: nat) returns (r: nat)
    requires maxWords <= vli.Length
    ensures r <= maxWords
    ensures r > 0 ==> vli[r - 1] != 0
    ensures forall j :: r <= j < maxWords ==> vli[j] == 0
  {
    var i := maxWords - 1;
    while i >= 0 && vli[i] == 0
      invariant -1 <= i < maxWords
      invariant forall j :: i < j < maxWords ==> vli[j] == 0
    {
      i := i - 1;
    }
    r := i + 1;
  }

  /** The length in bits: shifting by it leaves nothing, by one less leaves one. */
  method VliNumBits(vli: array<Word>, maxWords: nat) returns (r: nat)
    requires maxWords <= vli.Length
    ensures Shr(Val(vli[..maxWords]), r) == 0
    ensures r > 0 ==> Shr(Val(vli[..maxWords]), r - 1) == 1
    ensures r <= 32 * maxWords
    ensures maxWords > 0 && vli[maxWords - 1] != 0 ==> r > 32 * (maxWords - 1)
  {
    var numDigits := VliNumDigits(vli, maxWords);
    ghost var s := vli[..maxWords];
    if numDigits == 0 {
      ZeroVal(s);
      return 0;
    }
    var digit: nat := vli[numDigits - 1];
    ghost var d := digit;
    var i := 0;
    while digit != 0
      invariant digit == Shr(d, i)
      invariant i > 0 ==> Shr(d, i - 1) > 0
      invariant digit == 0 ==> i > 0 && Shr(d, i - 1) == 1
      invariant i <= 32
      decreases digit
    {
      if i == 32 {
        Pow2Is32();
        ShrZero(d, 32);
        assert false;
      }
      digit := digit / 2;
      i := i + 1;
    }
    r := (numDigits - 1) * 32 + i;
    TopWord(s, numDigits);
    ShrWords(s, numDigits - 1);
    ShrAdd(Val(s), 32 * (numDigits - 1), i);
    ShrAdd(Val(s), 32 * (numDigits - 1), i - 1);
  }

  lemma TopWord(s: seq<Word>, k: nat)
    requires 0 < k <= |s| && forall j :: k <= j < |s| ==> s[j] == 0
    ensures Val(s[k - 1..]) == s[k - 1]
  {
    ValFirst(s[k - 1..]);
    ZeroVal(s[k - 1..][1..]);
  }
}
