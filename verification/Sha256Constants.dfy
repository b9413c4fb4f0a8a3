/** Where the SHA-256 constants come from: fractional parts of roots of the first primes. */
module Sha256Constants {
  import opened Compression

  /** The first 64 primes, in rows of eight. */
  function FirstPrimes(row: nat): (p: seq<nat>)
    requires row < 8
    ensures |p| == 8
  {
    match row
    case 0 => [2, 3, 5, 7, 11, 13, 17, 19]
    case 1 => [23, 29, 31, 37, 41, 43, 47, 53]
    case 2 => [59, 61, 67, 71, 73, 79, 83, 89]
    case 3 => [97, 101, 103, 107, 109, 113, 127, 131]
    case 4 => [137, 139, 149, 151, 157, 163, 167, 173]
    case 5 => [179, 181, 191, 193, 197, 199, 211, 223]
    case 6 => [227, 229, 233, 239, 241, 251, 257, 263]
    case _ => [269, 271, 277, 281, 283, 293, 307, 311]
  }

  /** f is the first 32 bits of the fractional part of the cube root of p. */
  ghost predicate IsCubeRootFraction(p: nat, f: nat) {
    exists whole: nat :: CubeRootBetween(p, whole, f)
  }

  predicate CubeRootBetween(p: nat, whole: nat, f: nat) {
    var r := whole * 0x1_0000_0000 + f;
    r * r * r <= p * 0x1_0000_0000_0000_0000_0000_0000 < (r + 1) * (r + 1) * (r + 1)
  }

  ghost predicate IsSquareRootFraction(p: nat, f: nat) {
    exists whole: nat :: SquareRootBetween(p, whole, f)
  }

  predicate SquareRootBetween(p: nat, whole: nat, f: nat) {
    var r := whole * 0x1_0000_0000 + f;
    r * r <= p * 0x1_0000_0000_0000_0000 < (r + 1) * (r + 1)
  }

  function CubeRootFloor(p: nat): nat {
    if p < 8 then 1 else if p < 27 then 2 else if p < 64 then 3 else if p < 125 then 4 else if p < 216 then 5 else 6
  }

  function SquareRootFloor(p: nat): nat {
    if p < 4 then 1 else if p < 9 then 2 else if p < 16 then 3 else 4
  }

  lemma CubeRoots0(row: nat, i: nat)
    requires 0 <= row < 2 && i < 8
    ensures CubeRootBetween(FirstPrimes(row)[i], CubeRootFloor(FirstPrimes(row)[i]), K256(row)[i] as nat)
  {
  }

  lemma CubeRoots1(row: nat, i: nat)
    requires 2 <= row < 4 && i < 8
    ensures CubeRootBetween(FirstPrimes(row)[i], CubeRootFloor(FirstPrimes(row)[i]), K256(row)[i] as nat)
  {
  }

  lemma CubeRoots2(row: nat, i: nat)
    requires 4 <= row < 6 && i < 8
    ensures CubeRootBetween(FirstPrimes(row)[i], CubeRootFloor(FirstPrimes(row)[i]), K256(row)[i] as nat)
  {
  }

  lemma CubeRoots3(row: nat, i: nat)
    requires 6 <= row < 8 && i < 8
    ensures CubeRootBetween(FirstPrimes(row)[i], CubeRootFloor(FirstPrimes(row)[i]), K256(row)[i] as nat)
  {
  }

  /** The round constants are what the code says they are. */
  lemma RoundConstantsAreCubeRoots(row: nat, i: nat)
    requires row < 8 && i < 8
    ensures IsCubeRootFraction(FirstPrimes(row)[i], K256(row)[i] as nat)
  {
    hide FirstPrimes, K256, CubeRootBetween, CubeRootFloor;
    if row < 2 {
      CubeRoots0(row, i);
    } else if row < 4 {
      CubeRoots1(row, i);
    } else if row < 6 {
      CubeRoots2(row, i);
    } else {
      CubeRoots3(row, i);
    }
  }

  lemma SquareRoots(i: nat)
    requires i < 8
    ensures SquareRootBetween(FirstPrimes(0)[i], SquareRootFloor(FirstPrimes(0)[i]), InitialHash()[i] as nat)
  {
    if i < 4 {
      if i < 2 {} else {}
    } else {
      if i < 6 {} else {}
    }
  }

  lemma InitialWordsAreSquareRoots(i: nat)
    requires i < 8
    ensures IsSquareRootFraction(FirstPrimes(0)[i], InitialHash()[i] as nat)
  {
    hide FirstPrimes, InitialHash, SquareRootBetween, SquareRootFloor;
    SquareRoots(i);
  }
}
