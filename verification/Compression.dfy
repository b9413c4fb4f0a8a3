/** The SHA-256 compression function: the 64-word message schedule of FIPS 180-4 and the 16-word form that the code
    keeps. */
module Compression {
  import opened Word32

  // ---- Section 4.1.2 of FIPS 180-4 ----

  function Rotr(a: bv32, n: bv6): bv32
    requires 0 < n < 32
  {
    (a >> n) | (a << (32 - n))
  }

  function Shr(a: bv32, n: bv6): bv32
    requires n < 32
  {
    a >> n
  }

  function Xor3(a: bv32, b: bv32, c: bv32): bv32 {
    a ^ b ^ c
  }

  function BigSigma0(a: bv32): bv32 {
    Xor3(Rotr(a, 2), Rotr(a, 13), Rotr(a, 22))
  }

  function BigSigma1(a: bv32): bv32 {
    Xor3(Rotr(a, 6), Rotr(a, 11), Rotr(a, 25))
  }

  function Sigma0(a: bv32): bv32 {
    Xor3(Rotr(a, 7), Rotr(a, 18), Shr(a, 3))
  }

  function Sigma1(a: bv32): bv32 {
    Xor3(Rotr(a, 17), Rotr(a, 19), Shr(a, 10))
  }

  function Ch(a: bv32, b: bv32, c: bv32): bv32 {
    (a & b) ^ ((!a) & c)
  }

  function Maj(a: bv32, b: bv32, c: bv32): bv32 {
    (a & b) ^ (a & c) ^ (b & c)
  }

  /** The 64 constants of section 4.2.2, in rows of eight. */
  function K256(row: nat): (k: seq<bv32>)
    requires row < 8
    ensures |k| == 8
  {
    match row
    case 0 => [0x428a2f98, 0x71374491, 0xb5c0fbcf, 0xe9b5dba5, 0x3956c25b, 0x59f111f1, 0x923f82a4, 0xab1c5ed5]
    case 1 => [0xd807aa98, 0x12835b01, 0x243185be, 0x550c7dc3, 0x72be5d74, 0x80deb1fe, 0x9bdc06a7, 0xc19bf174]
    case 2 => [0xe49b69c1, 0xefbe4786, 0x0fc19dc6, 0x240ca1cc, 0x2de92c6f, 0x4a7484aa, 0x5cb0a9dc, 0x76f988da]
    case 3 => [0x983e5152, 0xa831c66d, 0xb00327c8, 0xbf597fc7, 0xc6e00bf3, 0xd5a79147, 0x06ca6351, 0x14292967]
    case 4 => [0x27b70a85, 0x2e1b2138, 0x4d2c6dfc, 0x53380d13, 0x650a7354, 0x766a0abb, 0x81c2c92e, 0x92722c85]
    case 5 => [0xa2bfe8a1, 0xa81a664b, 0xc24b8b70, 0xc76c51a3, 0xd192e819, 0xd6990624, 0xf40e3585, 0x106aa070]
    case 6 => [0x19a4c116, 0x1e376c08, 0x2748774c, 0x34b0bcb5, 0x391c0cb3, 0x4ed8aa4a, 0x5b9cca4f, 0x682e6ff3]
    case _ => [0x748f82ee, 0x78a5636f, 0x84c87814, 0x8cc70208, 0x90befffa, 0xa4506ceb, 0xbef9a3f7, 0xc67178f2]
  }

  function K(t: nat): bv32
    requires t < 64
  {
    K256(t / 8)[t % 8]
  }

  /** The hash value: eight words. */
  type Hash = s: seq<bv32> | |s| == 8 witness [0, 0, 0, 0, 0, 0, 0, 0]

  type Words16 = s: seq<bv32> | |s| == 16 witness [0, 0, 0, 0, 0, 0, 0, 0, 0, 0, 0, 0, 0, 0, 0, 0]

  /** Section 5.3.3. */
  function InitialHash(): Hash {
    [0x6a09e667, 0xbb67ae85, 0x3c6ef372, 0xa54ff53a, 0x510e527f, 0x9b05688c, 0x1f83d9ab, 0x5be0cd19]
  }

  // ---- Section 6.2.2 ----

  /** Four bytes, most significant first. */
  type Bytes64 = s: seq<bv8> | |s| == 64 witness seq(64, _ => 0)

  function WordsOf(block: Bytes64): Words16 {
    seq(16, i requires 0 <= i < 16 => BigEndian(block[4 * i], block[4 * i + 1], block[4 * i + 2], block[4 * i + 3]))
  }

  /** W_t: every word from the ones 2, 7, 15 and 16 places before it. */
  function Schedule(m: Words16, t: nat): bv32 {
    if t < 16 then m[t]
    else Add(Add(Add(Sigma1(Schedule(m, t - 2)), Schedule(m, t - 7)), Sigma0(Schedule(m, t - 15))), Schedule(m, t - 16))
  }

  datatype Vars = Vars(a: bv32, b: bv32, c: bv32, d: bv32, e: bv32, f: bv32, g: bv32, h: bv32)

  function Round(v: Vars, k: bv32, w: bv32): Vars {
    var t1 := Add(Add(Add(Add(v.h, BigSigma1(v.e)), Ch(v.e, v.f, v.g)), k), w);
    var t2 := Add(BigSigma0(v.a), Maj(v.a, v.b, v.c));
    Vars(Add(t1, t2), v.a, v.b, v.c, Add(v.d, t1), v.e, v.f, v.g)
  }

  function Rounds(v: Vars, m: Words16, n: nat): Vars
    requires n <= 64
  {
    if n == 0 then v else Round(Rounds(v, m, n - 1), K(n - 1), Schedule(m, n - 1))
  }

  function Start(hash: Hash): Vars {
    Vars(hash[0], hash[1], hash[2], hash[3], hash[4], hash[5], hash[6], hash[7])
  }

  function AddTo(hash: Hash, v: Vars): Hash {
    [Add(hash[0], v.a), Add(hash[1], v.b), Add(hash[2], v.c), Add(hash[3], v.d),
     Add(hash[4], v.e), Add(hash[5], v.f), Add(hash[6], v.g), Add(hash[7], v.h)]
  }

  function Compressed(hash: Hash, block: Bytes64): Hash {
    AddTo(hash, Rounds(Start(hash), WordsOf(block), 64))
  }

  // ---- The code's form ----

  /** One round as the code computes it. */
  method Step(v: Vars, k: bv32, w: bv32) returns (r: Vars)
    ensures r == Round(v, k, w)
  {
    hide BigSigma0, BigSigma1, Ch, Maj, Add;
    var t1 := Add(w, Add(Add(Add(v.h, BigSigma1(v.e)), Ch(v.e, v.f, v.g)), k));
    var t2 := Add(BigSigma0(v.a), Maj(v.a, v.b, v.c));
    AddCommutes(w, Add(Add(Add(v.h, BigSigma1(v.e)), Ch(v.e, v.f, v.g)), k));
    r := Vars(Add(t1, t2), v.a, v.b, v.c, Add(v.d, t1), v.e, v.f, v.g);
  }

  lemma ScheduleOrder(w: bv32, s0: bv32, s1: bv32, x: bv32)
    ensures Add(w, Add(Add(s0, s1), x)) == Add(Add(Add(s1, x), s0), w)
  {
    hide Add;
    AddAssociates(s0, s1, x);
    AddCommutes(s0, Add(s1, x));
    AddCommutes(w, Add(Add(s0, s1), x));
  }

  /** The last sixteen words of the schedule, each at its place modulo sixteen. */
  ghost predicate Rolled(work: seq<bv32>, m: Words16, t: nat) {
    |work| == 16 && t >= 16 && forall i :: t - 16 <= i < t ==> work[i % 16] == Schedule(m, i)
  }

  lemma RolledWords(m: Words16)
    ensures Rolled(m, m, 16)
  {
    forall i | 0 <= i < 16
      ensures m[i % 16] == Schedule(m, i)
    {
    }
  }

  /** The next word replaces the oldest one. */
  lemma RollNext(work: seq<bv32>, m: Words16, t: nat, w: bv32)
    requires Rolled(work, m, t)
    requires |work| == 16 && t >= 16
             && w == Add(work[t % 16], Add(Add(Sigma0(work[(t + 1) % 16]), Sigma1(work[(t + 14) % 16])),
                                           work[(t + 9) % 16]))
    ensures w == Schedule(m, t) && Rolled(work[t % 16 := w], m, t + 1)
  {
    hide *;
    Places(t);
    RolledAt(work, m, t, t - 16);
    RolledAt(work, m, t, t - 15);
    RolledAt(work, m, t, t - 7);
    RolledAt(work, m, t, t - 2);
    ScheduleOrder(work[t % 16], Sigma0(work[(t + 1) % 16]), Sigma1(work[(t + 14) % 16]), work[(t + 9) % 16]);
    ScheduleNext(m, t);
    RolledUpdate(work, m, t, w);
  }

  lemma Places(t: nat)
    requires t >= 16
    ensures (t - 16) % 16 == t % 16 && (t - 15) % 16 == (t + 1) % 16 && (t - 7) % 16 == (t + 9) % 16
            && (t - 2) % 16 == (t + 14) % 16
  {
  }

  lemma RolledAt(work: seq<bv32>, m: Words16, t: nat, i: nat)
    requires Rolled(work, m, t) && t - 16 <= i < t
    ensures work[i % 16] == Schedule(m, i)
  {
    hide Schedule;
  }

  lemma ScheduleNext(m: Words16, t: nat)
    requires t >= 16
    ensures Schedule(m, t)
            == Add(Add(Add(Sigma1(Schedule(m, t - 2)), Schedule(m, t - 7)), Sigma0(Schedule(m, t - 15))),
                   Schedule(m, t - 16))
  {
    hide Sigma0, Sigma1, Add;
  }

  lemma RolledUpdate(work: seq<bv32>, m: Words16, t: nat, w: bv32)
    requires Rolled(work, m, t) && w == Schedule(m, t)
    ensures Rolled(work[t % 16 := w], m, t + 1)
  {
    hide Schedule;
    forall i | t + 1 - 16 <= i < t + 1
      ensures work[t % 16 := w][i % 16] == Schedule(m, i)
    {
      if i < t {
        DifferentPlaces(i, t);
      }
    }
  }

  lemma DifferentPlaces(i: nat, t: nat)
    requires i < t < i + 16
    ensures i % 16 != t % 16
  {
  }

  lemma RoundsNext(v: Vars, m: Words16, n: nat)
    requires n < 64
    ensures Rounds(v, m, n + 1) == Round(Rounds(v, m, n), K(n), Schedule(m, n))
  {
  }

  lemma WordAt(block: Bytes64, i: nat)
    requires i < 16
    ensures WordsOf(block)[i] == BigEndian(block[4 * i], block[4 * i + 1], block[4 * i + 2], block[4 * i + 3])
    ensures Schedule(WordsOf(block), i) == WordsOf(block)[i]
  {
  }

  /** compress(iv, data): one block into the hash value, with sixteen words of work space. */
  method Compress(iv: array<bv32>, data: array<bv8>)
    requires iv.Length == 8 && data.Length == 64
    modifies iv
    ensures iv[..] == Compressed(old(iv[..]), data[..])
  {
    hide *;
    var work := new bv32[16];
    CompressWith(iv, data, work);
  }

  method CompressWith(iv: array<bv32>, data: array<bv8>, work: array<bv32>)
    requires iv.Length == 8 && data.Length == 64 && work.Length == 16 && iv != work
    modifies iv, work
    ensures iv[..] == Compressed(old(iv[..]), data[..])
  {
    hide *;
    ghost var hash: Hash, m := iv[..], WordsOf(data[..]);
    ghost var start := Start(hash);
    var v := LoadVars(iv);
    RoundsStart(start, m);
    var i := 0;
    while i < 16
      invariant 0 <= i <= 16 && v == Rounds(start, m, i) && work[..i] == m[..i]
      invariant iv[..] == hash
    {
      WordAt(data[..], i);
      RoundsNext(start, m, i);
      work[i] := BigEndian(data[4 * i], data[4 * i + 1], data[4 * i + 2], data[4 * i + 3]);
      assert work[..i + 1] == m[..i] + [work[i]] == m[..i + 1];
      v := Step(v, K(i), work[i]);
      i := i + 1;
    }
    RolledWords(m);
    assert work[..] == work[..16] == m[..16] == m;
    while i < 64
      invariant 16 <= i <= 64 && v == Rounds(start, m, i) && Rolled(work[..], m, i)
      invariant iv[..] == hash
    {
      ghost var now := work[..];
      RoundsNext(start, m, i);
      var w := Add(work[i % 16], Add(Add(Sigma0(work[(i + 1) % 16]), Sigma1(work[(i + 14) % 16])), work[(i + 9) % 16]));
      RollNext(now, m, i, w);
      work[i % 16] := w;
      assert work[..] == now[i % 16 := w];
      v := Step(v, K(i), w);
      i := i + 1;
    }
    CompressedIs(hash, data[..]);
    AddVars(iv, v);
  }

  lemma RoundsStart(v: Vars, m: Words16)
    ensures Rounds(v, m, 0) == v
  {
  }

  lemma CompressedIs(hash: Hash, block: Bytes64)
    ensures Compressed(hash, block) == AddTo(hash, Rounds(Start(hash), WordsOf(block), 64))
  {
  }

  method LoadVars(iv: array<bv32>) returns (v: Vars)
    requires iv.Length == 8
    ensures v == Start(iv[..])
  {
    v := Vars(iv[0], iv[1], iv[2], iv[3], iv[4], iv[5], iv[6], iv[7]);
  }

  method AddVars(iv: array<bv32>, v: Vars)
    requires iv.Length == 8
    modifies iv
    ensures iv[..] == AddTo(old(iv[..]), v)
  {
    hide *;
    ghost var hash: Hash := iv[..];
    iv[0], iv[1], iv[2], iv[3] := Add(iv[0], v.a), Add(iv[1], v.b), Add(iv[2], v.c), Add(iv[3], v.d);
    iv[4], iv[5], iv[6], iv[7] := Add(iv[4], v.e), Add(iv[5], v.f), Add(iv[6], v.g), Add(iv[7], v.h);
    AddToIs(hash, v, iv[..]);
  }

  lemma AddToIs(hash: Hash, v: Vars, r: seq<bv32>)
    requires |r| == 8
    requires r[0] == Add(hash[0], v.a) && r[1] == Add(hash[1], v.b) && r[2] == Add(hash[2], v.c)
             && r[3] == Add(hash[3], v.d)
    requires r[4] == Add(hash[4], v.e) && r[5] == Add(hash[5], v.f) && r[6] == Add(hash[6], v.g)
             && r[7] == Add(hash[7], v.h)
    ensures r == AddTo(hash, v)
  {
    hide Add;
  }
}
