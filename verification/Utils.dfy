/** The byte helpers _copy, _set and _compare. Pointers into a buffer become an array with an offset. */
module Utils {
  /** The array with the bytes from `at` on replaced by d. */
  function Spliced(s: seq<bv8>, at: nat, d: seq<bv8>): (r: seq<bv8>)
    requires at + |d| <= |s|
    ensures |r| == |s|
  {
    s[..at] + d + s[at + |d|..]
  }

  lemma SplicedFront(s: seq<bv8>, d: seq<bv8>)
    requires |d| <= |s|
    ensures Spliced(s, 0, d)[..|d|] == d
  {
  }

  lemma SpliceStart(s: seq<bv8>, at: nat, d: seq<bv8>)
    requires at + |d| <= |s|
    ensures Spliced(s, at, d[..0]) == s
  {
  }

  lemma SpliceNext(s: seq<bv8>, at: nat, d: seq<bv8>, i: nat)
    requires at + |d| <= |s| && i < |d|
    ensures Spliced(s, at, d[..i])[at + i := d[i]] == Spliced(s, at, d[..i + 1])
  {
  }

  lemma SpliceSnoc(s: seq<bv8>, at: nat, d: seq<bv8>, x: bv8)
    requires at + |d| < |s|
    ensures Spliced(s, at, d)[at + |d| := x] == Spliced(s, at, d + [x])
  {
  }

  /** A buffer of which the first i bytes have been replaced by those of now. */
  function Overwritten(before: seq<bv8>, now: seq<bv8>, i: nat): (r: seq<bv8>)
    requires i <= |now| <= |before|
    ensures |r| == |before|
  {
    now[..i] + before[i..]
  }

  lemma OverwriteNext(before: seq<bv8>, now: seq<bv8>, i: nat)
    requires i < |now| <= |before|
    ensures Overwritten(before, now, i)[i] == before[i]
    ensures Overwritten(before, now, i)[i := now[i]] == Overwritten(before, now, i + 1)
  {
  }

  lemma OverwriteEnds(before: seq<bv8>, now: seq<bv8>)
    requires |now| <= |before|
    ensures Overwritten(before, now, 0) == before && Overwritten(before, now, |now|) == now + before[|now|..]
  {
  }

  /** *out++ = x for the i-th time. */
  method Put(out: array<bv8>, i: nat, x: bv8)
    requires i < out.Length
    modifies out
    ensures out[..] == old(out[..])[i := x]
  {
    out[i] := x;
  }

  /** _copy(&to[at], toLen, &from[start], fromLen): nothing is written when the source is longer than the room. */
  method Copy(to: array<bv8>, at: nat, toLen: nat, from: array<bv8>, start: nat, fromLen: nat) returns (n: nat)
    requires to != from && at + toLen <= to.Length && start + fromLen <= from.Length
    modifies to
    ensures n == if fromLen <= toLen then fromLen else 0
    ensures to[..] == Spliced(old(to[..]), at, from[start..start + n])
  {
    if toLen < fromLen {
      assert from[start..start] == [];
      assert to[..] == to[..at] + [] + to[at..];
      return 0;
    }
    var i := 0;
    while i < fromLen
      invariant 0 <= i <= fromLen
      invariant forall j :: 0 <= j < to.Length ==>
                  to[j] == if at <= j < at + i then from[start + j - at] else old(to[j])
    {
      to[at + i] := from[start + i];
      i := i + 1;
    }
    n := fromLen;
    ghost var s := Spliced(old(to[..]), at, from[start..start + n]);
    assert forall j :: 0 <= j < |s| ==> to[..][j] == s[j];
  }

  /** _set(&to[at], val, len). */
  method Fill(to: array<bv8>, at: nat, val: bv8, len: nat)
    requires at + len <= to.Length
    modifies to
    ensures to[..] == Spliced(old(to[..]), at, seq(len, _ => val))
  {
    var i := 0;
    while i < len
      invariant 0 <= i <= len
      invariant forall j :: 0 <= j < to.Length ==> to[j] == if at <= j < at + i then val else old(to[j])
    {
      to[at + i] := val;
      i := i + 1;
    }
    ghost var s := Spliced(old(to[..]), at, seq(len, _ => val));
    assert forall j :: 0 <= j < |s| ==> to[..][j] == s[j];
  }

  lemma OrOfDifference(r: bv8, a: bv8, b: bv8)
    ensures r | (a ^ b) == 0 <==> r == 0 && a == b
  {
  }

  /** _compare: zero exactly on equal ranges, and every byte is looked at. */
  method Compare(a: array<bv8>, b: array<bv8>, size: nat) returns (result: bv8)
    requires size <= a.Length && size <= b.Length
    ensures result == 0 <==> a[..size] == b[..size]
  {
    result := 0;
    var i := 0;
    while i < size
      invariant 0 <= i <= size
      invariant result == 0 <==> forall j :: 0 <= j < i ==> a[j] == b[j]
    {
      OrOfDifference(result, a[i], b[i]);
      result := result | (a[i] ^ b[i]);
      i := i + 1;
    }
    assert a[..size] == b[..size] <==> forall j :: 0 <= j < size ==> a[j] == b[j] by {
      if a[..size] == b[..size] {
        assert forall j :: 0 <= j < size ==> a[..size][j] == a[j] && b[..size][j] == b[j];
      }
    }
  }
}
