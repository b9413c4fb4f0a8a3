/** Random numbers below a bound: uECC_generate_random_int, for any generator. */
module RandomInt {
  import opened Wrappers
  import opened Words
  import opened Arith
  import opened Bits
  import opened Vli
  import opened Field

  /** Eight words that the generator fills in. */
  type Candidate = s: seq<Word> | |s| == 8 witness [0, 0, 0, 0, 0, 0, 0, 0]

  /** The generator function, if one has been set: what its calls deliver one after the other. None is a failing call,
      and so is every call after the last. */
  datatype Random = NotSet | Set(draws: seq<Option<Candidate>>)

  const RNG_MAX_TRIES: nat := 64

  /** The candidate cut to the length of the bound. */
  function Masked(c: Candidate, bound: nat): nat {
    Val(c) % Pow2(BitLength(bound))
  }

  /** The candidate is taken: it is neither zero nor at or above the bound. */
  predicate Good(c: Candidate, bound: nat) {
    0 < Masked(c, bound) < bound
  }

  /** The first k calls have all delivered a candidate, and none of these was taken. */
  predicate Rejected(draws: seq<Option<Candidate>>, bound: nat, k: nat) {
    forall j :: 0 <= j < k ==> j < |draws| && draws[j].Some? && !Good(draws[j].value, bound)
  }

  /** Try i is the one that succeeds. */
  predicate PicksAt(draws: seq<Option<Candidate>>, bound: nat, i: nat) {
    i < RNG_MAX_TRIES && i < |draws| && draws[i].Some? && Good(draws[i].value, bound) && Rejected(draws, bound, i)
  }

  ghost predicate Succeeds(rng: Random, bound: nat) {
    rng.Set? && exists i: nat :: PicksAt(rng.draws, bound, i)
  }

  /** The generator is set, but yields no number below the bound. */
  ghost predicate GivesUp(rng: Random, bound: nat) {
    rng.Set? && !Succeeds(rng, bound)
  }

  /** It gives up exactly when a call fails before a candidate is taken, or when 64 candidates are rejected. */
  lemma GivesUpExactly(draws: seq<Option<Candidate>>, bound: nat)
    ensures GivesUp(Set(draws), bound) <==>
              || Rejected(draws, bound, 64)
              || exists i: nat :: i < 64 && Rejected(draws, bound, i) && (i < |draws| ==> draws[i].None?)
  {
    hide Good;
    if !Rejected(draws, bound, RNG_MAX_TRIES) {
      var i := FirstStop(draws, bound, RNG_MAX_TRIES);
      if i < |draws| && draws[i].Some? {
        assert PicksAt(draws, bound, i);
      }
    }
  }

  lemma FirstStop(draws: seq<Option<Candidate>>, bound: nat, k: nat) returns (i: nat)
    requires !Rejected(draws, bound, k)
    ensures i < k && Rejected(draws, bound, i) && !Rejected(draws, bound, i + 1)
  {
    hide Good;
    i := 0;
    while Rejected(draws, bound, i + 1)
      invariant i < k && Rejected(draws, bound, i)
      decreases k - i
    {
      i := i + 1;
    }
  }

  /** Two tries cannot both be the one. */
  lemma OnePick(draws: seq<Option<Candidate>>, bound: nat, i: nat, j: nat)
    requires PicksAt(draws, bound, i) && PicksAt(draws, bound, j)
    ensures i == j
  {
    hide Good;
  }

  lemma NoPick(draws: seq<Option<Candidate>>, bound: nat, k: nat)
    requires Rejected(draws, bound, k) && (k < RNG_MAX_TRIES && k < |draws| ==> draws[k].None?)
    ensures !Succeeds(Set(draws), bound)
  {
    hide Good;
  }

  lemma RejectOne(draws: seq<Option<Candidate>>, bound: nat, k: nat)
    requires Rejected(draws, bound, k) && k < |draws| && draws[k].Some? && !Good(draws[k].value, bound)
    ensures Rejected(draws, bound, k + 1)
  {
    hide Good;
  }

  lemma PickIs(draws: seq<Option<Candidate>>, bound: nat, k: nat)
    requires k < RNG_MAX_TRIES && k < |draws| && draws[k].Some? && Good(draws[k].value, bound)
             && Rejected(draws, bound, k)
    ensures Succeeds(Set(draws), bound)
    ensures forall i: nat :: PicksAt(draws, bound, i) ==> Masked(draws[i].value, bound) == Masked(draws[k].value, bound)
  {
    hide Good, Masked;
    assert PicksAt(draws, bound, k);
    forall i: nat | PicksAt(draws, bound, i)
      ensures i == k
    {
      OnePick(draws, bound, i, k);
    }
  }

  lemma NoneRejected(draws: seq<Option<Candidate>>, bound: nat)
    ensures Rejected(draws, bound, 0)
  {
    hide Good;
  }

  lemma NothingPicked(rng: Random, bound: nat)
    ensures rng.NotSet? ==> !Succeeds(rng, bound)
    ensures rng.Set? && !Succeeds(rng, bound) ==> forall i: nat :: !PicksAt(rng.draws, bound, i)
  {
    hide PicksAt;
  }

  lemma MaskedIs(c: Candidate, bound: nat, n: nat)
    requires n == BitLength(bound)
    ensures Masked(c, bound) == Val(c) % Pow2(n)
    ensures Good(c, bound) <==> 0 < Val(c) % Pow2(n) < bound
  {
    hide Val, Pow2, BitLength;
  }

  lemma RemainderIsLess(w: nat, p: nat)
    requires p > 0
    ensures 0 <= w % p <= w
  {
  }

  lemma TopOf(c: Candidate)
    ensures Val(c) == Val(c[..7]) + c[7] * Pow(7) && Val(c[..7]) < Pow(7)
  {
    hide *;
    assert c[..8] == c;
    ValStep(c, 7);
    ValBelow(c[..7]);
  }

  /** The top word cut to m, the number from its low part and its top word. */
  lemma MaskedNumbers(low: nat, w: nat, m: nat, n: nat)
    requires 224 < n <= 256 && low < Pow(7) && m == w % Pow2(n - 224)
    ensures low + m * Pow(7) == (low + w * Pow(7)) % Pow2(n)
  {
    hide *;
    var p := Pow2(n - 224);
    PowIsPow2(7);
    Pow2Add(224, n - 224);
    MaskNumbers(low, w, m, w / p, p, Pow(7));
    DivUnique(low + w * Pow(7), Pow2(n), w / p, low + m * Pow(7));
  }

  lemma MaskedTo(c: Candidate, n: nat, m: Word)
    requires 224 < n <= 256 && m == c[7] % Pow2(n - 224)
    ensures Val(c[7 := m]) == Val(c) % Pow2(n)
  {
    hide *;
    assert c[7 := m][..7] == c[..7];
    TopOf(c);
    TopOf(c[7 := m]);
    MaskedNumbers(Val(c[..7]), c[7], m, n);
  }

  /** Masking the top word cuts the number. */
  lemma MaskTop(c: Candidate, n: nat)
    requires 224 < n <= 256
    ensures c[7] % Pow2(n - 224) <= c[7]
    ensures Val(c[7 := c[7] % Pow2(n - 224)]) == Val(c) % Pow2(n)
  {
    hide *;
    RemainderIsLess(c[7], Pow2(n - 224));
    MaskedTo(c, n, c[7] % Pow2(n - 224));
  }

  lemma MaskNumbers(low: nat, w: nat, m: nat, q: nat, p: nat, t: nat)
    requires w == q * p + m && m < p && low < t
    ensures low + w * t == q * (t * p) + (low + m * t)
    ensures low + m * t < t * p
  {
    assert w * t == q * (t * p) + m * t;
    MulMono(t, m + 1, p);
    assert (m + 1) * t == m * t + t;
  }

  /** One call of the generator, and the mask on the top word: an AND with 2^k - 1 is a remainder by 2^k. */
  method Draw(random: array<Word>, c: Candidate, numBits: nat)
    requires random.Length == 8 && 224 < numBits <= 256
    modifies random
    ensures V(random) == Val(c) % Pow2(numBits)
  {
    hide Val, Pow2;
    var i := 0;
    while i < 8
      invariant 0 <= i <= 8
      invariant random[..i] == c[..i]
    {
      random[i] := c[i];
      i := i + 1;
    }
    assert random[..8] == random[..] && c[..8] == c;
    MaskTop(c, numBits);
    random[7] := random[7] % Pow2(32 - (256 - numBits));
    assert random[..] == c[7 := c[7] % Pow2(numBits - 224)];
  }

  /** uECC_generate_random_int. The bound has a nonzero top word, without which the C code shifts by a word or more. */
  method GenerateRandom(random: array<Word>, rng: Random, top: array<Word>) returns (ok: bool)
    requires random.Length == top.Length == 8 && random != top && top[7] != 0
    modifies random
    ensures ok <==> Succeeds(rng, V(top))
    ensures ok ==> 0 < V(random) < V(top)
    ensures forall i: nat :: rng.Set? && PicksAt(rng.draws, V(top), i) ==>
              V(random) == Masked(rng.draws[i].value, V(top))
  {
    hide Val, Pow, Pow2, Shr, Good, Masked, Rejected, PicksAt, BitLength, Succeeds;
    NothingPicked(rng, V(top));
    ghost var bound := V(top);
    assert top[..8] == top[..];
    var numBits := VliNumBits(top, 8);
    BitLengthIs(bound, numBits);
    if rng.NotSet? {
      return false;
    }
    NoneRejected(rng.draws, bound);
    var tries := 0;
    while tries < RNG_MAX_TRIES
      invariant 0 <= tries <= RNG_MAX_TRIES
      invariant V(top) == bound
      invariant Rejected(rng.draws, bound, tries)
    {
      if tries >= |rng.draws| || rng.draws[tries].None? {
        NoPick(rng.draws, bound, tries);
        return false;
      }
      Draw(random, rng.draws[tries].value, numBits);
      MaskedIs(rng.draws[tries].value, bound, numBits);
      assert random[..8] == random[..];
      var zero := VliIsZero(random, 8);
      var cmp := VliCmp(top, random, 8);
      if !zero && cmp == 1 {
        PickIs(rng.draws, bound, tries);
        return true;
      }
      RejectOne(rng.draws, bound, tries);
      tries := tries + 1;
    }
    NoPick(rng.draws, bound, tries);
    return false;
  }
}
