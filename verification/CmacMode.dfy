/** The CMAC state and its calls: tc_cmac_setup, tc_cmac_init, tc_cmac_update, tc_cmac_final, tc_cmac_erase. */
module CmacMode {
  import opened AesCipher
  import opened Blocks
  import opened Cmac
  import opened Utils

  /** gf_double: from the low order byte up, each byte's top bit carried into the next. */
  method GfDouble(out: array<bv8>, input: array<bv8>)
    requires out.Length == 16 && input.Length == 16 && out != input
    modifies out
    ensures out[..] == Doubled(input[..])
  {
    hide *;
    ghost var b: Block := input[..];
    Carries(b);
    var x := 15;
    var carry: bv8 := if input[0] >> 7 != 0 then 0x87 else 0;
    while true
      invariant 0 <= x < 16 && carry == Carry(b, x) && input[..] == b
      invariant forall j :: x < j < 16 ==> out[j] == ShiftIn(b[j], Carry(b, j))
      decreases x
    {
      ShiftInIs(input[x], carry);
      out[x] := (input[x] << 1) ^ carry;
      if x == 0 {
        break;
      }
      carry := input[x] >> 7;
      x := x - 1;
    }
    DoubledBytes(b, out[..]);
  }

  lemma ShiftInIs(x: bv8, carry: bv8)
    ensures ShiftIn(x, carry) == (x << 1) ^ carry
  {
  }

  lemma Carries(b: Block)
    ensures Carry(b, 15) == if b[0] >> 7 != 0 then 0x87 else 0
    ensures forall i :: 0 <= i < 15 ==> Carry(b, i) == b[i + 1] >> 7
  {
  }

  lemma DoubledBytes(b: Block, d: seq<bv8>)
    requires |d| == 16 && forall j :: 0 <= j < 16 ==> d[j] == ShiftIn(b[j], Carry(b, j))
    ensures d == Doubled(b)
  {
    hide ShiftIn, Carry;
  }

  // ---- What one update does to the state ----

  /** The chain value and the bytes kept back, after the given updates. */
  ghost predicate Holds(E: BlockFn, updates: seq<seq<bv8>>, iv: Block, left: Block, off: nat) {
    var m := Flat(updates);
    off == Kept(updates) && left[..off] == m[|m| - off..] && iv == Head(E, m, |m| - off)
  }

  lemma OffsetIs(updates: seq<seq<bv8>>)
    ensures var n, off := |Flat(updates)|, Kept(updates);
            && off <= n && (n - off) % 16 == 0
            && (n % 16 == 0 ==> off in {0, 16})
            && (n % 16 != 0 ==> off == n % 16)
  {
    hide Flat, EndsByFilling, LastLength;
    LastLengthMod(|Flat(updates)|);
    if EndsByFilling(updates) {
      FilledIsWhole(updates);
    }
  }

  lemma LastLengthMod(n: nat)
    ensures n % 16 == 0 ==> LastLength(n) in {0, 16}
    ensures n % 16 != 0 ==> LastLength(n) == n % 16
  {
  }

  lemma AfterUpdate(updates: seq<seq<bv8>>, d: seq<bv8>)
    ensures Flat(updates + [d]) == Flat(updates) + d
    ensures d == [] ==> Kept(updates + [d]) == Kept(updates)
    ensures d != [] ==> Kept(updates + [d]) == if |Flat(updates)| % 16 != 0 && |d| == 16 - |Flat(updates)| % 16 then 0
                                               else LastLength(|Flat(updates)| + |d|)
  {
    hide LastLength, Flat;
    FlatSnoc(updates, d);
    assert (updates + [d])[..|updates|] == updates;
    if d == [] {
      assert Flat(updates) + d == Flat(updates);
    }
  }

  lemma EmptyUpdate(E: BlockFn, updates: seq<seq<bv8>>, iv: Block, left: Block, off: nat)
    requires Holds(E, updates, iv, left, off)
    ensures Holds(E, updates + [[]], iv, left, off)
  {
    hide Kept, Head, Flat;
    AfterUpdate(updates, []);
    assert Flat(updates) + [] == Flat(updates);
  }

  /** The data does not fill the block that has been begun. */
  lemma ShortUpdate(E: BlockFn, updates: seq<seq<bv8>>, iv: Block, left: Block, off: nat, d: seq<bv8>, left': Block)
    requires Holds(E, updates, iv, left, off) && off > 0 && d != [] && |d| < 16 - off
    requires left' == Spliced(left, off, d)
    ensures Holds(E, updates + [d], iv, left', off + |d|)
  {
    hide Kept, Head, Flat, LastLength;
    var m := Flat(updates);
    OffsetIs(updates);
    AfterUpdate(updates, d);
    ShortLength(|m|, |d|);
    HeadGrows(E, m, d, |m| - off);
    assert (m + d)[|m| - off..] == m[|m| - off..] + d == left'[..off + |d|];
  }

  lemma ShortLength(n: nat, k: nat)
    requires n % 16 != 0 && 0 < k < 16 - n % 16
    ensures LastLength(n + k) == n % 16 + k
  {
    assert (n + k) % 16 == n % 16 + k;
  }

  /** The data fills the block that has been begun: it goes into the chain at once. */
  lemma FillUpdate(E: BlockFn, updates: seq<seq<bv8>>, iv: Block, left: Block, off: nat, d: seq<bv8>, left': Block)
    requires Holds(E, updates, iv, left, off) && off > 0 && |d| >= 16 - off
    requires left' == Spliced(left, off, d[..16 - off])
    ensures var m := Flat(updates);
            (|m| + 16 - off) % 16 == 0 && E(XorBlock(iv, left')) == Head(E, m + d, |m| + 16 - off)
  {
    hide Kept, Head, Flat, EndsByFilling;
    var m := Flat(updates);
    OffsetIs(updates);
    var k := |m| - off;
    HeadGrows(E, m, d, k);
    assert left' == left[..off] + d[..16 - off] == (m + d)[k..k + 16];
    HeadNext(E, m + d, k);
  }

  lemma FromBoundary(E: BlockFn, updates: seq<seq<bv8>>, iv: Block, left: Block, d: seq<bv8>)
    requires Holds(E, updates, iv, left, 0)
    ensures |Flat(updates)| % 16 == 0 && iv == Head(E, Flat(updates) + d, |Flat(updates)|)
  {
    hide Kept, Head, Flat;
    OffsetIs(updates);
    HeadGrows(E, Flat(updates), d, |Flat(updates)|);
  }

  /** The last bytes of the data are kept, or there are none because the update ended with a filled block. */
  lemma EndUpdate(E: BlockFn, updates: seq<seq<bv8>>, d: seq<bv8>, at: nat, iv: Block, left: Block)
    requires d != [] && at <= |d| <= at + 16 && (|Flat(updates)| + at) % 16 == 0
    requires at < |d| || (0 < Kept(updates) < 16 && at == |d| == 16 - Kept(updates))
    requires iv == Head(E, Flat(updates) + d, |Flat(updates)| + at) && left[..|d| - at] == d[at..]
    ensures Holds(E, updates + [d], iv, left, |d| - at)
  {
    hide Kept, Head, Flat, LastLength;
    var m := Flat(updates);
    OffsetIs(updates);
    AfterUpdate(updates, d);
    if at < |d| {
      EndLength(|m|, |d|, at);
    }
    assert (m + d)[|m| + at..] == d[at..];
  }

  lemma EndLength(n: nat, k: nat, at: nat)
    requires at < k <= at + 16 && (n + at) % 16 == 0
    ensures LastLength(n + k) == k - at
    ensures !(n % 16 != 0 && k == 16 - n % 16)
  {
    assert (n + k - 1) % 16 == (k - at - 1) % 16;
  }

  /** iv ^= the 16 bytes from `at` on, then iv is encrypted. */
  method Absorb(iv: array<bv8>, from: array<bv8>, at: nat, E: BlockFn)
    requires iv.Length == 16 && iv != from && at + 16 <= from.Length
    modifies iv
    ensures iv[..] == E(XorBlock(old(iv[..]), from[at..at + 16]))
  {
    hide *;
    ghost var b: Block := iv[..];
    ghost var d: Block := from[at..at + 16];
    XorBytesAre(b, d);
    var i := 0;
    while i < 16
      invariant 0 <= i <= 16
      invariant forall j :: 0 <= j < 16 ==> iv[j] == if j < i then XorBlock(b, d)[j] else b[j]
    {
      iv[i] := iv[i] ^ from[at + i];
      i := i + 1;
    }
    assert iv[..] == XorBlock(b, d);
    Blocks.Encrypt(iv, iv, E);
  }

  lemma XorBytesAre(a: Block, b: Block)
    ensures forall j :: 0 <= j < 16 ==> XorBlock(a, b)[j] == a[j] ^ b[j]
  {
  }

  lemma HoldsOffset(E: BlockFn, updates: seq<seq<bv8>>, iv: Block, left: Block, off: nat)
    requires Holds(E, updates, iv, left, off)
    ensures off == Kept(updates)
  {
  }

  /** CBC over each data block except the last. */
  method Drain(iv: array<bv8>, data: array<bv8>, n: nat, start: nat, E: BlockFn, ghost was: seq<seq<bv8>>)
    returns (at: nat)
    requires iv.Length == 16 && iv != data && start <= n <= data.Length
    requires (|Flat(was)| + start) % 16 == 0 && iv[..] == Head(E, Flat(was) + data[..n], |Flat(was)| + start)
    modifies iv
    ensures start <= at <= n <= at + 16 && (start < n ==> at < n)
    ensures (|Flat(was)| + at) % 16 == 0 && iv[..] == Head(E, Flat(was) + data[..n], |Flat(was)| + at)
  {
    hide *;
    ghost var m := Flat(was) + data[..n];
    at := start;
    while n - at > 16
      invariant start <= at <= n && (start < n ==> at < n)
      invariant (|Flat(was)| + at) % 16 == 0 && iv[..] == Head(E, m, |Flat(was)| + at)
    {
      ghost var k := |Flat(was)| + at;
      HeadNext(E, m, k);
      assert m[k..k + 16] == data[at..at + 16];
      Absorb(iv, data, at, E);
      at := at + 16;
    }
  }

  datatype Schedule = NoKey | Key(f: BlockFn)

  const MAX_CALLS: nat := 0x1_0000_0000_0000

  class CmacState {
    const iv: array<bv8>
    const K1: array<bv8>
    const K2: array<bv8>
    const leftover: array<bv8>
    var leftoverOffset: nat
    var sched: Schedule
    var countdown: nat
    /** The data of each update since the last initialisation. */
    ghost var updates: seq<seq<bv8>>

    ghost predicate Shape()
      reads this
    {
      && iv.Length == 16 && K1.Length == 16 && K2.Length == 16 && leftover.Length == 16
      && iv != K1 && iv != K2 && iv != leftover && K1 != K2 && K1 != leftover && K2 != leftover
    }

    /** A key is set up, with the subkeys that belong to it. */
    ghost predicate Keyed()
      reads this, K1, K2
    {
      Shape() && sched.Key? && K1[..] == Key1(sched.f) && K2[..] == Key2(sched.f)
    }

    ghost predicate Valid()
      reads this, iv, K1, K2, leftover
    {
      && Keyed() && leftoverOffset <= 16 && countdown <= MAX_CALLS
      && Holds(sched.f, updates, iv[..], leftover[..], leftoverOffset)
    }

    constructor ()
      ensures Shape() && fresh(iv) && fresh(K1) && fresh(K2) && fresh(leftover)
    {
      iv := new bv8[16];
      K1 := new bv8[16];
      K2 := new bv8[16];
      leftover := new bv8[16];
      leftoverOffset, sched, countdown := 0, NoKey, 0;
    }

    /** tc_cmac_erase. */
    method Erase()
      requires Shape()
      modifies this, iv, K1, K2, leftover
      ensures iv[..] == ZeroBlock() && K1[..] == ZeroBlock() && K2[..] == ZeroBlock() && leftover[..] == ZeroBlock()
      ensures leftoverOffset == 0 && sched == NoKey && countdown == 0
    {
      hide ZeroBlock;
      Clear(iv);
      Clear(K1);
      Clear(K2);
      Clear(leftover);
      leftoverOffset, sched, countdown := 0, NoKey, 0;
    }

    /** tc_cmac_setup: the schedule of the key, the subkeys under it, and a new message. The schedule stays with the
        caller. */
    method Setup(key: array<bv8>, words: array<bv32>)
      requires Shape() && words.Length == 44 && key.Length >= 16 && key !in {iv, K1, K2, leftover}
      modifies this, iv, K1, K2, leftover, words
      ensures Expanded(words[..], key[..16], 44)
      ensures Valid() && sched == Key(Under(words[..])) && updates == [] && countdown == 0x1_0000_0000_0000
    {
      hide Doubled, Holds, ZeroBlock, Under, Expanded;
      Erase();
      SetEncryptKey(words, key);
      DeriveSubkeys(Under(words[..]));
    }

    /** The subkeys and a new message, for any block function. */
    method DeriveSubkeys(E: BlockFn)
      requires Shape()
      modifies this, iv, K1, K2, leftover
      ensures Valid() && sched == Key(E) && updates == [] && countdown == 0x1_0000_0000_0000
    {
      hide Doubled, Holds, ZeroBlock;
      sched := Key(E);
      Clear(iv);
      Blocks.Encrypt(iv, iv, E);
      GfDouble(K1, iv);
      GfDouble(K2, K1);
      Init();
    }

    /** tc_cmac_init: a new message under the same key. */
    method Init()
      requires Keyed()
      modifies this, iv, leftover
      ensures Valid() && sched == old(sched) && updates == [] && countdown == 0x1_0000_0000_0000
    {
      hide Doubled, ZeroBlock, Key1, Key2;
      Clear(iv);
      Clear(leftover);
      leftoverOffset, countdown, updates := 0, MAX_CALLS, [];
      NothingYet(sched.f, leftover[..]);
    }

    /** tc_cmac_update. Refused only when the count of nonempty updates under this initialisation is used up. */
    method Update(data: array<bv8>, n: nat) returns (ok: bool)
      requires Valid() && n <= data.Length && data !in {iv, K1, K2, leftover}
      modifies this, iv, leftover
      ensures Valid() && sched == old(sched)
      ensures ok <==> n == 0 || old(countdown) > 0
      ensures countdown == if n > 0 && ok then old(countdown) - 1 else old(countdown)
      ensures updates == if ok then old(updates) + [data[..n]] else old(updates)
    {
      hide Holds, Key1, Key2;
      if n == 0 {
        EmptyUpdate(sched.f, updates, iv[..], leftover[..], leftoverOffset);
        assert data[..0] == [];
        updates := updates + [data[..n]];
        return true;
      }
      if countdown == 0 {
        return false;
      }
      countdown := countdown - 1;
      Feed(data, n);
      ok := true;
    }

    /** The part of tc_cmac_update that consumes data. */
    method Feed(data: array<bv8>, n: nat)
      requires Valid() && 0 < n <= data.Length && data !in {iv, K1, K2, leftover}
      modifies this`leftoverOffset, this`updates, iv, leftover
      ensures Valid() && updates == old(updates) + [data[..n]]
    {
      hide Holds, Key1, Key2, Head, Spliced, Kept, EndsByFilling, LastLength;
      ghost var E, was, d := sched.f, updates, data[..n];
      var at := 0;
      HoldsOffset(E, was, iv[..], leftover[..], leftoverOffset);
      if leftoverOffset > 0 {
        var remaining := 16 - leftoverOffset;
        if n < remaining {
          ShortUpdate(E, was, iv[..], leftover[..], leftoverOffset, d, Spliced(leftover[..], leftoverOffset, d));
          var _ := Copy(leftover, leftoverOffset, n, data, 0, n);
          leftoverOffset := leftoverOffset + n;
          updates := updates + [d];
          return;
        }
        FillUpdate(E, was, iv[..], leftover[..], leftoverOffset, d,
                   Spliced(leftover[..], leftoverOffset, d[..remaining]));
        var _ := Copy(leftover, leftoverOffset, remaining, data, 0, remaining);
        assert data[0..0 + remaining] == d[..remaining];
        at, leftoverOffset := remaining, 0;
        Absorb(iv, leftover, 0, sched.f);
        assert leftover[0..16] == leftover[..];
      } else {
        FromBoundary(E, was, iv[..], leftover[..], d);
      }
      Rest(data, n, at);
    }

    /** From a block boundary on: whole blocks into the chain, the last bytes into the leftover buffer. */
    method Rest(data: array<bv8>, n: nat, start: nat)
      requires Keyed() && countdown <= MAX_CALLS && start <= n <= data.Length && data !in {iv, K1, K2, leftover}
               && leftoverOffset == 0
      requires start < n || (0 < Kept(updates) < 16 && 0 < start == n == 16 - Kept(updates))
      requires (|Flat(updates)| + start) % 16 == 0
      requires iv[..] == Head(sched.f, Flat(updates) + data[..n], |Flat(updates)| + start)
      modifies this`leftoverOffset, this`updates, iv, leftover
      ensures Valid() && updates == old(updates) + [data[..n]]
    {
      hide Holds, Key1, Key2, Head, Spliced, Kept, EndsByFilling, LastLength, Flat;
      var at := Drain(iv, data, n, start, sched.f, updates);
      ghost var kept, d := leftover[..], data[..n];
      if at < n {
        var _ := Copy(leftover, 0, n - at, data, at, n - at);
        SplicedFront(kept, data[at..at + (n - at)]);
        leftoverOffset := n - at;
      }
      assert leftover[..n - at] == d[at..];
      EndUpdate(sched.f, updates, d, at, iv[..], leftover[..]);
      updates := updates + [d];
    }

    /** tc_cmac_final. The state is erased. */
    method Final(tag: array<bv8>)
      requires Valid() && tag.Length == 16 && tag !in {iv, K1, K2, leftover}
      modifies this, iv, K1, K2, leftover, tag
      ensures tag[..] == StreamedTag(old(sched.f), old(updates))
      ensures iv[..] == ZeroBlock() && K1[..] == ZeroBlock() && K2[..] == ZeroBlock() && leftover[..] == ZeroBlock()
      ensures leftoverOffset == 0 && sched == NoKey && countdown == 0
    {
      hide Holds, Key1, Key2, StreamedTag, ZeroBlock, Head, Kept;
      ghost var E, was, before := sched.f, updates, iv[..];
      ghost var left := leftover[..];
      if leftoverOffset == 16 {
        MixLast(iv, leftover, K1);
      } else {
        Fill(leftover, leftoverOffset, 0, 16 - leftoverOffset);
        leftover[leftoverOffset] := 0x80;
        PadWritten(left, leftoverOffset, leftover[..]);
        MixLast(iv, leftover, K2);
      }
      FinalTag(E, was, before, left, leftoverOffset);
      Blocks.Encrypt(tag, iv, sched.f);
      Erase();
    }
  }

  lemma PadWritten(left: Block, off: nat, padded: seq<bv8>)
    requires off < 16 && padded == Spliced(left, off, seq(16 - off, _ => 0))[off := 0x80]
    ensures padded == PadOne(left[..off])
  {
  }

  /** The tag is the cipher of the chain value under the last block. */
  lemma FinalTag(E: BlockFn, updates: seq<seq<bv8>>, iv: Block, left: Block, off: nat)
    requires Holds(E, updates, iv, left, off) && off <= 16
    ensures StreamedTag(E, updates)
            == E(XorBlock(iv, if off == 16 then XorBlock(left, Key1(E)) else XorBlock(PadOne(left[..off]), Key2(E))))
  {
    hide Key1, Key2, PadOne, XorBlock, Head, Kept, Flat;
    if off == 16 {
      assert left[..16] == left;
    }
  }

  /** iv[i] ^= left[i] ^ k[i]. */
  method MixLast(iv: array<bv8>, left: array<bv8>, k: array<bv8>)
    requires iv.Length == 16 && left.Length == 16 && k.Length == 16 && iv != left && iv != k
    modifies iv
    ensures iv[..] == XorBlock(old(iv[..]), XorBlock(left[..], k[..]))
  {
    hide *;
    ghost var b: Block, c: Block, d: Block := iv[..], left[..], k[..];
    XorBytesAre(c, d);
    XorBytesAre(b, XorBlock(c, d));
    var i := 0;
    while i < 16
      invariant 0 <= i <= 16
      invariant forall j :: 0 <= j < 16 ==> iv[j] == if j < i then XorBlock(b, XorBlock(c, d))[j] else b[j]
    {
      iv[i] := iv[i] ^ (left[i] ^ k[i]);
      i := i + 1;
    }
    assert iv[..] == XorBlock(b, XorBlock(c, d));
  }

  lemma NothingYet(E: BlockFn, left: Block)
    ensures Holds(E, [], ZeroBlock(), left, 0)
  {
    hide ZeroBlock;
  }

  method Clear(a: array<bv8>)
    requires a.Length == 16
    modifies a
    ensures a[..] == ZeroBlock()
  {
    Fill(a, 0, 0, 16);
  }
}
