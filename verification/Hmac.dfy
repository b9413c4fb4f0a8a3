/** HMAC with SHA-256: tc_hmac_set_key, tc_hmac_init, tc_hmac_update, tc_hmac_final. */
module Hmac {
  import opened HashState
  import opened Sha256
  import opened Utils

  // ---- Section 2 of RFC 2104, with B = 64 and L = 32 ----

  /** The key, hashed first when it is longer than a block, and filled up with zeros. */
  function KeyBlock(key: seq<bv8>): (r: seq<bv8>)
    ensures |r| == 64
  {
    var k := if |key| > 64 then Digest(key) else key;
    k + Zeros(64 - |k|)
  }

  function XorWith(k: seq<bv8>, pad: bv8): (r: seq<bv8>)
    ensures |r| == |k|
  {
    seq(|k|, i requires 0 <= i < |k| => k[i] ^ pad)
  }

  function InnerKey(key: seq<bv8>): (r: seq<bv8>)
    ensures |r| == 64
  {
    XorWith(KeyBlock(key), 0x36)
  }

  function OuterKey(key: seq<bv8>): (r: seq<bv8>)
    ensures |r| == 64
  {
    XorWith(KeyBlock(key), 0x5c)
  }

  function Mac(key: seq<bv8>, text: seq<bv8>): (r: seq<bv8>)
    ensures |r| == 32
  {
    Digest(OuterKey(key) + Digest(InnerKey(key) + text))
  }

  /** The nesting for the key "Jefe" of the second test case of RFC 4231, with both pads written out. */
  lemma MacOfShortKey(text: seq<bv8>)
    ensures Mac([0x4a, 0x65, 0x66, 0x65], text)
            == Digest([0x16, 0x39, 0x3a, 0x39] + seq(60, _ => 0x5c)
                      + Digest([0x7c, 0x53, 0x50, 0x53] + seq(60, _ => 0x36) + text))
  {
    hide Digest;
    var key: seq<bv8> := [0x4a, 0x65, 0x66, 0x65];
    assert KeyBlock(key) == key + Zeros(60);
    assert InnerKey(key) == [0x7c, 0x53, 0x50, 0x53] + seq(60, _ => 0x36);
    assert OuterKey(key) == [0x16, 0x39, 0x3a, 0x39] + seq(60, _ => 0x5c);
  }

  /** Keys longer than a block of 64 bytes stand for their digest, and shorter ones for themselves followed by a zero.
      */
  lemma MacOfOtherKeys(key: seq<bv8>, text: seq<bv8>)
    ensures |key| > 64 ==> Mac(key, text) == Mac(Digest(key), text)
    ensures |key| < 64 ==> Mac(key, text) == Mac(key + [0], text)
  {
    hide Digest;
    if |key| > 64 {
      assert KeyBlock(key) == KeyBlock(Digest(key));
    } else if |key| < 64 {
      assert KeyBlock(key) == KeyBlock(key + [0]);
    }
  }

  // ---- The key schedule ----

  lemma XorCommutes(a: bv8, b: bv8)
    ensures a ^ b == b ^ a && 0 ^ a == a
  {
  }

  lemma PaddedAt(k: seq<bv8>, i: nat)
    requires |k| <= 64 && i < 64
    ensures (k + Zeros(64 - |k|))[i] == if i < |k| then k[i] else 0
  {
  }

  /** Place i of the two halves is written; the source byte is still untouched then, wherever it lies in the first
      half. */
  ghost predicate Rekeyed(now: seq<bv8>, was: seq<bv8>, full: seq<bv8>, n: nat)
    requires |now| == 128 == |was| && |full| == 64
  {
    && (forall j :: 0 <= j < n && j < 64 ==> now[j] == XorWith(full, 0x36)[j] && now[64 + j] == XorWith(full, 0x5c)[j])
    && (forall j :: n <= j < 64 ==> now[j] == was[j])
  }

  lemma RekeyNext(now: seq<bv8>, was: seq<bv8>, full: seq<bv8>, n: nat, a: bv8, b: bv8)
    requires |now| == 128 == |was| && |full| == 64 && n < 64 && Rekeyed(now, was, full, n)
    requires a == XorWith(full, 0x36)[n] && b == XorWith(full, 0x5c)[n]
    ensures Rekeyed(now[n := a][64 + n := b], was, full, n + 1)
  {
    hide XorWith;
  }

  lemma RekeyDone(now: seq<bv8>, was: seq<bv8>, full: seq<bv8>)
    requires |now| == 128 == |was| && |full| == 64 && Rekeyed(now, was, full, 64)
    ensures now == XorWith(full, 0x36) + XorWith(full, 0x5c)
  {
    hide XorWith;
  }

  /** Both pads of one byte; it is read again after the first write. */
  method MaskByte(key: array<bv8>, newKey: array<bv8>, j: nat, i: nat)
    requires key.Length == 128 && j < newKey.Length && i < 64 && (newKey == key ==> i < j < 64)
    modifies key
    ensures key[..] == old(key[..])[i := 0x36 ^ old(newKey[j])][64 + i := 0x5c ^ old(newKey[j])]
  {
    key[i] := 0x36 ^ newKey[j];
    key[i + 64] := 0x5c ^ newKey[j];
  }

  /** rekey(key, &newKey[start], size). The new key may lie inside the first half of the array that is overwritten. */
  method Rekey(key: array<bv8>, newKey: array<bv8>, start: nat, size: nat)
    requires key.Length == 128 && start + size <= newKey.Length && size <= 64
    requires newKey == key ==> 0 < start && start + size <= 64
    modifies key
    ensures var full := old(newKey[start..start + size]) + Zeros(64 - size);
            key[..] == XorWith(full, 0x36) + XorWith(full, 0x5c)
  {
    hide *;
    ghost var was, k := key[..], newKey[start..start + size];
    ghost var full := k + Zeros(64 - size);
    RekeyStart(was, full);
    var i := 0;
    while i < size
      invariant 0 <= i <= size && Rekeyed(key[..], was, full, i)
      invariant newKey != key ==> newKey[start..start + size] == k
    {
      if newKey == key {
        RekeyUntouched(key[..], was, full, i, start + i);
      } else {
        assert newKey[start + i] == newKey[start..start + size][i];
      }
      assert newKey[start + i] == k[i];
      RekeyBytes(full, i);
      RekeyNext(key[..], was, full, i, 0x36 ^ k[i], 0x5c ^ k[i]);
      MaskByte(key, newKey, start + i, i);
      i := i + 1;
    }
    PadRest(key, size, was, k);
    RekeyDone(key[..], was, full);
  }

  /** The pads alone where the key has ended. */
  method PadRest(key: array<bv8>, size: nat, ghost was: seq<bv8>, ghost k: seq<bv8>)
    requires key.Length == 128 == |was| && size == |k| <= 64 && Rekeyed(key[..], was, k + Zeros(64 - size), size)
    modifies key
    ensures Rekeyed(key[..], was, k + Zeros(64 - size), 64)
  {
    hide *;
    ghost var full := k + Zeros(64 - size);
    var i := size;
    while i < 64
      invariant size <= i <= 64 && Rekeyed(key[..], was, full, i)
    {
      PaddedAt(k, i);
      RekeyBytes(full, i);
      RekeyNext(key[..], was, full, i, 0x36, 0x5c);
      Put(key, i, 0x36);
      Put(key, i + 64, 0x5c);
      i := i + 1;
    }
  }

  lemma RekeyStart(was: seq<bv8>, full: seq<bv8>)
    requires |was| == 128 && |full| == 64
    ensures Rekeyed(was, was, full, 0)
  {
  }

  lemma RekeyUntouched(now: seq<bv8>, was: seq<bv8>, full: seq<bv8>, n: nat, j: nat)
    requires |now| == 128 == |was| && |full| == 64 && Rekeyed(now, was, full, n) && n <= j < 64
    ensures now[j] == was[j]
  {
    hide XorWith;
  }

  lemma RekeyBytes(full: seq<bv8>, i: nat)
    requires |full| == 64 && i < 64
    ensures XorWith(full, 0x36)[i] == 0x36 ^ full[i] && XorWith(full, 0x5c)[i] == 0x5c ^ full[i]
    ensures full[i] == 0 ==> 0x36 ^ full[i] == 0x36 && 0x5c ^ full[i] == 0x5c
  {
    XorCommutes(0x36, full[i]);
    XorCommutes(0x5c, full[i]);
  }

  class HmacState {
    const hashState: Sha256State
    const key: array<bv8>
    /** The key that was set, and the data since the last initialisation. */
    ghost var secret: seq<bv8>
    ghost var message: seq<bv8>

    ghost predicate Shape()
      reads this, hashState
    {
      key.Length == 128 && hashState.Shape() && key != hashState.leftover
    }

    ghost predicate Keyed()
      reads this, key, hashState
    {
      Shape() && key[..] == InnerKey(secret) + OuterKey(secret)
    }

    ghost predicate Valid()
      reads this, key, hashState, hashState.iv, hashState.leftover
    {
      Keyed() && hashState.Valid() && hashState.message == InnerKey(secret) + message
    }

    constructor ()
      ensures Shape() && fresh(hashState) && fresh(hashState.iv) && fresh(hashState.leftover) && fresh(key)
    {
      hashState := new Sha256State();
      key := new bv8[128];
      secret, message := [], [];
    }

    /** tc_hmac_set_key: only the empty key is refused. For keys of up to a block the hash state is left alone. */
    method SetKey(k: array<bv8>, size: nat) returns (ok: bool)
      requires Shape() && size <= k.Length && k != key && k != hashState.leftover
      modifies this, key, hashState, hashState.iv, hashState.leftover
      ensures ok <==> size != 0
      ensures ok ==> Keyed() && secret == k[..size]
      ensures !ok ==> key[..] == old(key[..]) && secret == old(secret) && message == old(message)
      ensures size <= 64 ==> unchanged(hashState, hashState.iv, hashState.leftover)
    {
      hide KeyBlock, XorWith, Digest, Zeros, Spliced, Sha256State.Valid, Sha256State.Erased;
      if size == 0 {
        return false;
      }
      KeyBlockIs(k[..size]);
      if size <= 64 {
        DummyHash(size);
        assert k[0..0 + size] == k[..size];
        Rekey(key, k, 0, size);
      } else {
        hashState.Init();
        hashState.Update(k, 0, size);
        hashState.Final(key, 32);
        SplicedAt(old(key[..]), 32, Digest(k[..size]));
        assert k[0..0 + size] == k[..size] && [] + k[..size] == k[..size];
        assert key[32..32 + 32] == key[..][32..32 + 32];
        Rekey(key, key, 32, 32);
      }
      secret := k[..size];
      ok := true;
    }

    /** tc_hmac_init: a new message under the key that was set. */
    method Init()
      requires Keyed()
      modifies this`message, hashState, hashState.iv, hashState.leftover
      ensures Valid() && message == [] && secret == old(secret)
    {
      hide InnerKey, OuterKey, Sha256State.Valid, Sha256State.Erased;
      hashState.Init();
      hashState.Update(key, 0, 64);
      message := [];
      assert key[0..0 + 64] == InnerKey(secret);
    }

    /** tc_hmac_update. */
    method Update(data: array<bv8>, n: nat)
      requires Valid() && n <= data.Length && data != hashState.leftover
      modifies this`message, hashState, hashState.iv, hashState.leftover
      ensures Valid() && message == old(message) + data[..n] && secret == old(secret)
    {
      hide InnerKey, OuterKey, Sha256State.Valid, Sha256State.Erased;
      hashState.Update(data, 0, n);
      message := message + data[..n];
    }

    /** tc_hmac_final: the tag of everything fed since tc_hmac_init; the whole state is erased. */
    method Final(tag: array<bv8>, taglen: nat) returns (ok: bool)
      requires Valid() && taglen <= tag.Length && tag != key && tag != hashState.leftover
      modifies this, tag, key, hashState, hashState.iv, hashState.leftover
      ensures ok <==> taglen == 32
      ensures ok ==> tag[..] == Mac(old(secret), old(message)) + old(tag[32..])
      ensures ok ==> key[..] == Zeros(128) && hashState.Erased()
      ensures !ok ==> Valid() && tag[..] == old(tag[..]) && secret == old(secret) && message == old(message)
    {
      hide InnerKey, OuterKey, Digest, Spliced, Zeros, Sha256State.Valid, Sha256State.Erased;
      if taglen != 32 {
        return false;
      }
      ghost var before, inner := tag[..], Digest(InnerKey(secret) + message);
      hashState.Final(tag, 0);
      hashState.Init();
      hashState.Update(key, 64, 64);
      hashState.Update(tag, 0, 32);
      SplicedFront(before, inner);
      assert key[64..64 + 64] == OuterKey(secret) && tag[0..0 + 32] == tag[..][..32] == inner;
      assert hashState.message == OuterKey(secret) + inner;
      hashState.Final(tag, 0);
      SplicedTwice(before, inner, Mac(secret, message));
      FilledZeros(key[..]);
      Fill(key, 0, 0, 128);
      hashState.Erase();
      ok := true;
    }
  }

  lemma KeyBlockIs(k: seq<bv8>)
    ensures KeyBlock(k) == if |k| > 64 then Digest(k) + Zeros(32) else k + Zeros(64 - |k|)
  {
  }

  lemma SplicedAt(s: seq<bv8>, at: nat, d: seq<bv8>)
    requires at + |d| <= |s|
    ensures Spliced(s, at, d)[at..at + |d|] == d
  {
  }

  lemma SplicedTwice(s: seq<bv8>, d: seq<bv8>, e: seq<bv8>)
    requires |d| == |e| <= |s|
    ensures Spliced(Spliced(s, 0, d), 0, e) == e + s[|e|..]
  {
  }

  lemma FilledZeros(s: seq<bv8>)
    requires |s| == 128
    ensures Spliced(s, 0, seq(128, _ => 0)) == Zeros(128)
  {
  }

  /** The calls on a state of their own that only take time. */
  method DummyHash(size: nat)
  {
    var dummyKey := new bv8[size];
    var dummyState := new HmacState();
    dummyState.hashState.Init();
    dummyState.hashState.Update(dummyKey, 0, size);
    dummyState.hashState.Final(dummyState.key, 32);
  }
}
