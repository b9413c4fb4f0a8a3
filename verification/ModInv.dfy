/** Modular inversion by binary extended Euclid. */
module ModInv {
  import opened Words
  import opened Arith
  import opened Bits
  import opened Vli

  ghost predicate Common(k: int, a: int, b: int) {
    k > 0 && Divides(k, a) && Divides(k, b)
  }

  /** a and b have the same common divisors as c and d. */
  ghost predicate SameDivisors(a: int, b: int, c: int, d: int) {
    forall k: int :: Common(k, a, b) <==> Common(k, c, d)
  }

  /** g is the greatest common divisor: its divisors are exactly the common ones. */
  ghost predicate IsGcd(g: int, a: int, b: int) {
    g > 0 && forall k: int :: Common(k, g, g) <==> Common(k, a, b)
  }

  /** The numbers of the loop, for the inverse of x modulo m. */
  ghost predicate Inverting(a: int, b: int, u: int, v: int, x: int, m: int) {
    && m > 1 && m % 2 == 1 && a > 0 && b > 0 && (a % 2 == 1 || b % 2 == 1)
    && 0 <= u < m && 0 <= v < m
    && Cong(a, u * x, m) && Cong(b, v * x, m)
    && SameDivisors(a, b, x, m)
  }

  lemma InvertingSwap(a: int, b: int, u: int, v: int, x: int, m: int)
    requires Inverting(a, b, u, v, x, m)
    ensures Inverting(b, a, v, u, x, m)
  {
    forall k: int
      ensures Common(k, b, a) <==> Common(k, x, m)
    {
      assert Common(k, a, b) <==> Common(k, b, a);
    }
  }

  lemma InvertingStart(x: int, m: int)
    requires x > 0 && m > 1 && m % 2 == 1
    ensures Inverting(x, m, 1, 0, x, m)
  {
    CongRefl(x, m);
    CongIntro(m, 0 * x, m, 1);
  }

  /** Two can be cancelled modulo an odd number. */
  lemma CancelTwo(a: int, b: int, m: int)
    requires m > 0 && m % 2 == 1 && Cong(2 * a, 2 * b, m)
    ensures Cong(a, b, m)
  {
    var k := CongWitness(2 * a, 2 * b, m);
    OddFactor(k, m, a - b);
    HalfProduct(k / 2, m, a - b);
    CongIntro(a, b, m, k / 2);
  }

  lemma OddFactor(k: int, m: int, h: int)
    requires m % 2 == 1 && k * m == 2 * h
    ensures k % 2 == 0
  {
    var c, d := k / 2, m / 2;
    if k % 2 == 1 {
      assert k == 2 * c + 1 && m == 2 * d + 1;
      OddProduct(k, c, d);
    }
  }

  lemma OddProduct(k: int, c: int, d: int)
    requires k == 2 * c + 1
    ensures (k * (2 * d + 1)) % 2 == 1
  {
    assert k * (2 * d + 1) == 2 * (k * d) + k;
  }

  lemma HalfProduct(j: int, m: int, h: int)
    requires (2 * j) * m == 2 * h
    ensures j * m == h
  {
  }

  /** An odd divisor of 2 h divides h; and what divides h divides 2 h. */
  lemma DivideHalf(k: int, h: int)
    requires k % 2 == 1
    ensures Divides(k, 2 * h) <==> Divides(k, h)
  {
    if Divides(k, 2 * h) {
      var j :| Multiple(j, k, 2 * h);
      OddFactor(j, k, h);
      HalfProduct(j / 2, k, h);
      assert Multiple(j / 2, k, h);
    }
    if Divides(k, h) {
      var j :| Multiple(j, k, h);
      assert Multiple(2 * j, k, 2 * h);
    }
  }

  lemma OddDivisor(k: int, b: int)
    requires b % 2 == 1 && Divides(k, b)
    ensures k % 2 == 1
  {
    var j :| Multiple(j, k, b);
    if k % 2 == 0 {
      EvenProduct(j, k / 2);
      assert false;
    }
  }

  lemma EvenProduct(j: int, h: int)
    ensures (j * (2 * h)) % 2 == 0
  {
    assert j * (2 * h) == 2 * (j * h);
  }

  lemma HalfDivisors(h: int, b: int, x: int, m: int)
    requires b % 2 == 1 && SameDivisors(2 * h, b, x, m)
    ensures SameDivisors(h, b, x, m)
  {
    forall k: int
      ensures Common(k, h, b) <==> Common(k, x, m)
    {
      if Divides(k, b) {
        OddDivisor(k, b);
        DivideHalf(k, h);
      }
      assert Common(k, h, b) <==> Common(k, 2 * h, b);
    }
  }

  lemma DifferenceDivisors(a: int, b: int, x: int, m: int)
    requires SameDivisors(a, b, x, m)
    ensures SameDivisors(a - b, b, x, m)
  {
    forall k: int
      ensures Common(k, a - b, b) <==> Common(k, x, m)
    {
      if Common(k, a, b) {
        var i :| Multiple(i, k, a);
        var j :| Multiple(j, k, b);
        assert Multiple(i - j, k, a - b);
      }
      if Common(k, a - b, b) {
        var i :| Multiple(i, k, a - b);
        var j :| Multiple(j, k, b);
        assert Multiple(i + j, k, a);
      }
      assert Common(k, a - b, b) <==> Common(k, a, b);
    }
  }

  /** The step for even a: h = a / 2, and t is half of u modulo m. */
  lemma HalveA(a: int, b: int, u: int, v: int, x: int, m: int, t: int)
    requires Inverting(a, b, u, v, x, m) && a % 2 == 0
    requires 0 <= t < m && Cong(2 * t, u, m)
    ensures Inverting(a / 2, b, t, v, x, m)
  {
    var h := a / 2;
    HalfDivisors(h, b, x, m);
    HalfCong(h, u, t, x, m);
  }

  lemma HalfCong(h: int, u: int, t: int, x: int, m: int)
    requires m > 0 && m % 2 == 1 && Cong(2 * t, u, m) && Cong(2 * h, u * x, m)
    ensures Cong(h, t * x, m)
  {
    CongRefl(x, m);
    CongMul(2 * t, u, x, x, m);
    CongSym((2 * t) * x, u * x, m);
    CongTrans(2 * h, u * x, (2 * t) * x, m);
    assert (2 * t) * x == 2 * (t * x);
    CancelTwo(h, t * x, m);
  }

  /** The step for a > b both odd: t is half of u - v modulo m. */
  lemma SubtractA(a: int, b: int, u: int, v: int, x: int, m: int, t: int)
    requires Inverting(a, b, u, v, x, m) && a % 2 == 1 && b % 2 == 1 && a > b
    requires 0 <= t < m && Cong(2 * t, u - v, m)
    ensures Inverting((a - b) / 2, b, t, v, x, m)
  {
    var h := (a - b) / 2;
    assert a - b == 2 * h;
    DifferenceDivisors(a, b, x, m);
    HalfDivisors(h, b, x, m);
    CongSub(a, u * x, b, v * x, m);
    assert u * x - v * x == (u - v) * x;
    HalfCong(h, u - v, t, x, m);
  }

  lemma InvertingEnd(a: int, u: int, v: int, x: int, m: int)
    requires Inverting(a, a, u, v, x, m)
    ensures IsGcd(a, x, m) && Cong(u * x, a, m) && 0 <= u < m
  {
    CongSym(a, u * x, m);
  }

  lemma SetHighBit(t: seq<Word>, r: seq<Word>)
    requires |t| == |r| > 0 && t[|t| - 1] < 0x8000_0000
    requires r == t[..|t| - 1] + [t[|t| - 1] + 0x8000_0000]
    ensures 2 * Val(r) == 2 * Val(t) + Pow(|t|)
  {
    var k := |t| - 1;
    assert r[..k] == t[..k];
    assert (t[k] + 0x8000_0000) * Pow(k) == t[k] * Pow(k) + 0x8000_0000 * Pow(k);
    assert Pow(k + 1) == 0x1_0000_0000 * Pow(k);
  }

  lemma PowEven(n: nat)
    requires n > 0
    ensures Pow(n) % 2 == 0
  {
    assert Pow(n) == 2 * (0x8000_0000 * Pow(n - 1));
  }

  /** The even number x, spread over n words and a carry. */
  ghost predicate Spread(x: nat, s: seq<Word>, carry: nat) {
    carry <= 1 && Val(s) + carry * Pow(|s|) == x
  }

  lemma SpreadPlain(s: seq<Word>)
    ensures Spread(Val(s), s, 0)
  {
  }

  /** Shift right by one bit; a carry out of the top word comes back as the top bit. */
  method HalveWithCarry(vli: array<Word>, carry: Word, n: nat, ghost x: nat)
    requires 1 <= n <= vli.Length && x % 2 == 0 && Spread(x, vli[..n], carry)
    modifies vli
    ensures 2 * Val(vli[..n]) == x
    ensures forall j :: n <= j < vli.Length ==> vli[j] == old(vli[j])
  {
    ghost var s := vli[0..n];
    assert s == vli[..n];
    VliRshift1(vli, 0, n);
    ghost var t := vli[0..n];
    assert t == vli[..n];
    HalfVal(s, t);
    assert t[n - 1] == HalfWord(s, n - 1) < 0x8000_0000;
    PowEven(n);
    HalvedSum(x, Val(s), carry, Pow(n));
    if carry != 0 {
      vli[n - 1] := vli[n - 1] + 0x8000_0000;
      hide *;
      SetHighBit(t, vli[..n]);
    }
  }

  lemma HalvedSum(x: nat, s: nat, c: nat, q: nat)
    requires x % 2 == 0 && q % 2 == 0 && c <= 1 && s + c * q == x
    ensures s % 2 == 0 && (c == 0 ==> x == s) && (c == 1 ==> x == s + q)
  {
  }

  /** uv becomes uv / 2 modulo an odd mod. */
  method VliModInvUpdate(uv: array<Word>, mod: array<Word>, n: nat)
    requires 1 <= n <= uv.Length && n <= mod.Length && uv != mod
    requires Val(mod[..n]) % 2 == 1 && Val(uv[..n]) < Val(mod[..n])
    modifies uv
    ensures Val(uv[..n]) < Val(mod[..n])
    ensures Cong(2 * Val(uv[..n]), old(Val(uv[..n])), Val(mod[..n]))
  {
    hide *;
    ghost var w, m := Val(uv[..n]), Val(mod[..n]);
    FirstBit(uv[..n]);
    OddSum(w, m);
    if uv[0] % 2 != 0 {
      var carry := VliAdd(uv, uv, mod, n);
      SpreadIntro(w + m, uv[..n], carry, n);
      HalveWithCarry(uv, carry, n, w + m);
      Halved(Val(uv[..n]), w, m, 1);
    } else {
      SpreadPlain(uv[..n]);
      HalveWithCarry(uv, 0, n, w);
      Halved(Val(uv[..n]), w, m, 0);
    }
  }

  lemma OddSum(w: int, m: int)
    requires m % 2 == 1
    ensures if w % 2 == 1 then (w + m) % 2 == 0 else w % 2 == 0
  {
  }

  lemma Halved(h: nat, w: nat, m: nat, k: nat)
    requires k <= 1 && w < m && 2 * h == w + k * m
    ensures h < m && Cong(2 * h, w, m)
  {
    CongIntro(2 * h, w, m, k);
  }

  lemma SpreadIntro(x: nat, s: seq<Word>, carry: nat, n: nat)
    requires carry <= 1 && n == |s| && Val(s) + carry * Pow(n) == x
    ensures Spread(x, s, carry)
  {
  }

  lemma FirstBit(s: seq<Word>)
    requires |s| > 0
    ensures Val(s) % 2 == s[0] % 2
  {
    hide *;
    ValFirst(s);
    ParityOfSum(s[0], Val(s[1..]));
  }

  lemma ParityOfSum(a: int, b: int)
    ensures (a + 0x1_0000_0000 * b) % 2 == a % 2
  {
  }

  /** u becomes u - v modulo mod, through a wrap of the top word when u < v. */
  method WrappingModSub(u: array<Word>, v: array<Word>, mod: array<Word>, n: nat)
    requires 1 <= n <= u.Length && n <= mod.Length && n <= v.Length && u != mod && u != v
    requires Val(u[..n]) < Val(mod[..n]) && Val(v[..n]) < Val(mod[..n])
    modifies u
    ensures Val(u[..n]) < Val(mod[..n])
    ensures Cong(Val(u[..n]), old(Val(u[..n])) - Val(v[..n]), Val(mod[..n]))
  {
    hide *;
    ghost var l: int, r: int, m: int := Val(u[..n]), Val(v[..n]), Val(mod[..n]);
    var cmp := VliCmpUnsafe(u, v, n);
    ghost var c := 0;
    if cmp < 0 {
      var carry := VliAdd(u, u, mod, n);
      c := carry;
    }
    ghost var s := Val(u[..n]);
    ValBelow(mod[..n]);
    var borrow := VliSub(u, u, v, n);
    ValBelow(u[..n]);
    WrapCancels(l, r, m, s, c, Val(u[..n]), borrow, Pow(n), if l < r then 1 else 0);
    CongIntro(Val(u[..n]), l - r, m, if l < r then 1 else 0);
  }

  /** The dropped carry and the borrow cancel. */
  lemma WrapCancels(l: nat, r: nat, m: nat, s: nat, c: nat, d: nat, b: nat, q: nat, k: nat)
    requires l < m && r < m < q && d < q && c <= 1 && b <= 1
    requires k == (if l < r then 1 else 0) && (l >= r ==> c == 0)
    requires s + c * q == l + k * m
    requires d - b * q == s - r
    ensures d == l - r + k * m < m
  {
    assert c == 0 ==> c * q == 0;
    assert c == 1 ==> c * q == q;
    assert b == 0 ==> b * q == 0;
    assert b == 1 ==> b * q == q;
    assert k * m == if l < r then m else 0;
  }

  /** The inverse of input modulo an odd mod, times their greatest common divisor; zero for zero. */
  method VliModInv(result: array<Word>, input: array<Word>, mod: array<Word>, n: nat) returns (ghost g: nat)
    requires 1 <= n <= result.Length && n <= input.Length && n <= mod.Length && result != mod
    requires Val(mod[..n]) % 2 == 1 && Val(mod[..n]) > 1
    modifies result
    ensures old(Val(input[..n])) == 0 ==> Val(result[..n]) == 0
    ensures old(Val(input[..n])) != 0 ==>
              && IsGcd(g, old(Val(input[..n])), Val(mod[..n]))
              && Val(result[..n]) < Val(mod[..n])
              && Cong(Val(result[..n]) * old(Val(input[..n])), g, Val(mod[..n]))
    ensures forall j :: n <= j < result.Length ==> result[j] == old(result[j])
  {
    hide *;
    var a, b := new Word[n], new Word[n];
    var u, v := new Word[n], new Word[n];
    g := ModInvWith(result, input, mod, n, a, b, u, v);
  }

  method ModInvWith(result: array<Word>, input: array<Word>, mod: array<Word>, n: nat,
                    a: array<Word>, b: array<Word>, u: array<Word>, v: array<Word>)
    returns (ghost g: nat)
    requires 1 <= n <= result.Length && n <= input.Length && n <= mod.Length && result != mod
    requires n == a.Length == b.Length == u.Length == v.Length && {a, b, u, v} !! {result, input, mod}
    requires a != b && a != u && a != v && b != u && b != v && u != v
    requires Val(mod[..n]) % 2 == 1 && Val(mod[..n]) > 1
    modifies result, a, b, u, v
    ensures old(Val(input[..n])) == 0 ==> Val(result[..n]) == 0
    ensures old(Val(input[..n])) != 0 ==>
              && IsGcd(g, old(Val(input[..n])), Val(mod[..n]))
              && Val(result[..n]) < Val(mod[..n])
              && Cong(Val(result[..n]) * old(Val(input[..n])), g, Val(mod[..n]))
    ensures forall j :: n <= j < result.Length ==> result[j] == old(result[j])
  {
    hide *;
    assert a in {a, b, u, v} && b in {a, b, u, v} && u in {a, b, u, v} && v in {a, b, u, v};
    g := 1;
    var zero := VliIsZero(input, n);
    if zero {
      VliClear(result, n);
      return;
    }
    ghost var x, m := Val(input[..n]), Val(mod[..n]);
    VliSet(a, input, n);
    VliSet(b, mod, n);
    VliClear(u, n);
    u[0] := 1;
    ValOfOne(u[..n]);
    VliClear(v, n);
    InvertingStart(x, m);
    InvertLoop(a, b, u, v, mod, n, x);
    g := Val(a[..n]);
    InvertingEnd(g, Val(u[..n]), Val(v[..n]), x, m);
    VliSet(result, u, n);
  }

  method InvertLoop(a: array<Word>, b: array<Word>, u: array<Word>, v: array<Word>, mod: array<Word>, n: nat,
                    ghost x: nat)
    requires 1 <= n == a.Length == b.Length == u.Length == v.Length && n <= mod.Length
    requires a != b && a != u && a != v && a != mod && b != u && b != v && b != mod && u != v && u != mod && v != mod
    requires Inverting(Val(a[..n]), Val(b[..n]), Val(u[..n]), Val(v[..n]), x, Val(mod[..n]))
    modifies a, b, u, v
    ensures Val(a[..n]) == Val(b[..n])
    ensures Inverting(Val(a[..n]), Val(b[..n]), Val(u[..n]), Val(v[..n]), x, Val(mod[..n]))
  {
    hide *;
    ghost var m := Val(mod[..n]);
    var cmpResult := VliCmpUnsafe(a, b, n);
    while cmpResult != 0
      invariant Val(mod[..n]) == m
      invariant Inverting(Val(a[..n]), Val(b[..n]), Val(u[..n]), Val(v[..n]), x, m)
      invariant cmpResult == if Val(a[..n]) > Val(b[..n]) then 1 else if Val(a[..n]) < Val(b[..n]) then -1 else 0
      decreases Val(a[..n]) + Val(b[..n])
    {
      InvertStep(a, b, u, v, mod, n, cmpResult, x);
      cmpResult := VliCmpUnsafe(a, b, n);
    }
  }

  lemma ValOfOne(s: seq<Word>)
    requires |s| > 0 && s[0] == 1 && forall j :: 0 < j < |s| ==> s[j] == 0
    ensures Val(s) == 1
  {
    ValFirst(s);
    ZeroVal(s[1..]);
  }

  /** a becomes (a - b) / 2, and u the half of u - v modulo mod. */
  method SubtractAndHalve(a: array<Word>, b: array<Word>, u: array<Word>, v: array<Word>, mod: array<Word>, n: nat)
    requires 1 <= n == a.Length == b.Length == u.Length == v.Length && n <= mod.Length
    requires a != b && a != u && a != v && a != mod && b != u && u != v && u != mod
    requires Val(a[..n]) > Val(b[..n]) && Val(u[..n]) < Val(mod[..n]) && Val(v[..n]) < Val(mod[..n])
             && Val(mod[..n]) % 2 == 1
    modifies a, u
    ensures Val(a[..n]) == (old(Val(a[..n])) - Val(b[..n])) / 2
    ensures Val(u[..n]) < Val(mod[..n]) && Cong(2 * Val(u[..n]), old(Val(u[..n])) - Val(v[..n]), Val(mod[..n]))
  {
    hide *;
    ghost var va: int, vb: int, vu: int, vv: int, m: int := Val(a[..n]), Val(b[..n]), Val(u[..n]), Val(v[..n]),
        Val(mod[..n]);
    var borrow := VliSub(a, a, b, n);
    NoBorrow(va, vb, Val(a[..n]), borrow, a[..n]);
    assert a[0..n] == a[..n];
    VliRshift1(a, 0, n);
    assert a[0..n] == a[..n];
    WrappingModSub(u, v, mod, n);
    ghost var w := Val(u[..n]);
    VliModInvUpdate(u, mod, n);
    CongTrans(2 * Val(u[..n]), w, vu - vv, m);
  }

  /** One turn of the loop: four cases, each of which lowers a + b. */
  method InvertStep(a: array<Word>, b: array<Word>, u: array<Word>, v: array<Word>, mod: array<Word>, n: nat,
                    cmpResult: int, ghost x: nat)
    requires 1 <= n == a.Length == b.Length == u.Length == v.Length && n <= mod.Length
    requires a != b && a != u && a != v && a != mod && b != u && b != v && b != mod && u != v && u != mod && v != mod
    requires Inverting(Val(a[..n]), Val(b[..n]), Val(u[..n]), Val(v[..n]), x, Val(mod[..n]))
    requires cmpResult == if Val(a[..n]) > Val(b[..n]) then 1 else if Val(a[..n]) < Val(b[..n]) then -1 else 0
    requires cmpResult != 0
    modifies a, b, u, v
    ensures Inverting(Val(a[..n]), Val(b[..n]), Val(u[..n]), Val(v[..n]), x, Val(mod[..n]))
    ensures Val(a[..n]) + Val(b[..n]) < old(Val(a[..n]) + Val(b[..n]))
  {
    hide *;
    ghost var va: int, vb: int, vu: int, vv: int, m: int := Val(a[..n]), Val(b[..n]), Val(u[..n]), Val(v[..n]),
        Val(mod[..n]);
    FirstBit(a[..n]);
    FirstBit(b[..n]);
    InvertingRange(va, vb, vu, vv, x, m);
    assert a[0..n] == a[..n] && b[0..n] == b[..n];
    if a[0] % 2 == 0 {
      VliRshift1(a, 0, n);
      assert a[0..n] == a[..n];
      VliModInvUpdate(u, mod, n);
      HalveA(va, vb, vu, vv, x, m, Val(u[..n]));
    } else if b[0] % 2 == 0 {
      VliRshift1(b, 0, n);
      assert b[0..n] == b[..n];
      VliModInvUpdate(v, mod, n);
      InvertingSwap(va, vb, vu, vv, x, m);
      HalveA(vb, va, vv, vu, x, m, Val(v[..n]));
      InvertingSwap(vb / 2, va, Val(v[..n]), vu, x, m);
    } else if cmpResult > 0 {
      SubtractAndHalve(a, b, u, v, mod, n);
      SubtractA(va, vb, vu, vv, x, m, Val(u[..n]));
    } else {
      SubtractAndHalve(b, a, v, u, mod, n);
      InvertingSwap(va, vb, vu, vv, x, m);
      SubtractA(vb, va, vv, vu, x, m, Val(v[..n]));
      InvertingSwap((vb - va) / 2, va, Val(v[..n]), vu, x, m);
    }
  }

  lemma InvertingRange(a: int, b: int, u: int, v: int, x: int, m: int)
    requires Inverting(a, b, u, v, x, m)
    ensures m % 2 == 1 && u < m && v < m && a > 0 && b > 0
  {
  }

  lemma NoBorrow(l: nat, r: nat, d: nat, b: nat, s: seq<Word>)
    requires l >= r && b <= 1 && d == Val(s) && d - b * Pow(|s|) == l - r
    ensures d == l - r
  {
    ValBelow(s);
    hide *;
    if b == 1 {
      assert false;
    }
  }
}
