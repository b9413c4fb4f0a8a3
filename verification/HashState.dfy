/** The SHA-256 state and its calls: tc_sha256_init, tc_sha256_update, tc_sha256_final. */
module HashState {
  import opened Compression
  import opened Sha256
  import opened Utils

  method ClearWords(a: array<bv32>)
    modifies a
    ensures forall i :: 0 <= i < a.Length ==> a[i] == 0
  {
    var i := 0;
    while i < a.Length
      invariant 0 <= i <= a.Length && forall j :: 0 <= j < i ==> a[j] == 0
    {
      a[i] := 0;
      i := i + 1;
    }
  }

  class Sha256State {
    const iv: array<bv32>
    const leftover: array<bv8>
    var leftoverOffset: nat
    var bitsHashed: nat
    /** The bytes hashed since the last initialisation. */
    ghost var message: seq<bv8>

    ghost predicate Shape()
      reads this
    {
      iv.Length == 8 && leftover.Length == 64
    }

    ghost predicate Valid()
      reads this, iv, leftover
    {
      Shape() && Holds(message, iv[..], leftover[..], leftoverOffset, bitsHashed)
    }

    ghost predicate Erased()
      reads this, iv, leftover
    {
      Shape() && (forall i :: 0 <= i < 8 ==> iv[i] == 0) && leftover[..] == Zeros(64) && leftoverOffset == 0
          && bitsHashed == 0
    }

    constructor ()
      ensures Shape() && fresh(iv) && fresh(leftover)
    {
      iv := new bv32[8];
      leftover := new bv8[64];
      leftoverOffset, bitsHashed, message := 0, 0, [];
    }

    method Erase()
      requires Shape()
      modifies this, iv, leftover
      ensures Erased()
    {
      ClearWords(iv);
      Fill(leftover, 0, 0, 64);
      leftoverOffset, bitsHashed := 0, 0;
    }

    /** tc_sha256_init. */
    method Init()
      requires Shape()
      modifies this, iv, leftover
      ensures Valid() && message == []
    {
      hide Holds, InitialHash;
      Erase();
      var i := 0;
      while i < 8
        modifies iv
        invariant 0 <= i <= 8 && iv[..i] == InitialHash()[..i]
      {
        ghost var done := iv[..i];
        iv[i] := InitialHash()[i];
        assert iv[..i + 1] == done + [iv[i]] == InitialHash()[..i + 1];
        i := i + 1;
      }
      assert iv[..] == InitialHash();
      message := [];
      NothingHashed(leftover[..]);
    }

    /** The body of the loop of tc_sha256_update. */
    method Push(x: bv8)
      requires Valid()
      modifies this, iv, leftover
      ensures Valid() && message == old(message) + [x]
    {
      hide Compressed, HashBlocks, InitialHash;
      ghost var m, hash, left, off, bits := message, iv[..], leftover[..], leftoverOffset, bitsHashed;
      HoldsOffset(m, hash, left, off, bits);
      Put(leftover, leftoverOffset, x);
      leftoverOffset := leftoverOffset + 1;
      message := message + [x];
      if leftoverOffset >= 64 {
        PushLastByte(m, hash, left, off, bits, x);
        Compress(iv, leftover);
        leftoverOffset := 0;
        bitsHashed := (bitsHashed + 512) % 0x1_0000_0000_0000_0000;
      } else {
        PushByte(m, hash, left, off, bits, x);
      }
    }

    /** tc_sha256_update on the n bytes from `start` on. */
    method Update(data: array<bv8>, start: nat, n: nat)
      requires Valid() && start + n <= data.Length && data != leftover
      modifies this, iv, leftover
      ensures Valid() && message == old(message) + data[start..start + n]
    {
      hide Valid;
      ghost var was := message;
      var i := 0;
      assert was == was + data[start..start];
      while i < n
        invariant 0 <= i <= n && Valid() && message == was + data[start..start + i]
      {
        assert data[start..start + i + 1] == data[start..start + i] + [data[start + i]];
        Push(data[start + i]);
        i := i + 1;
      }
    }

    /** The padding and the length, in one block or two. */
    method Pad()
      requires Valid()
      modifies this, iv, leftover
      ensures BytesOfHash(iv[..]) == Digest(message) && message == old(message)
    {
      hide Compressed, Holds, BytesOfHash, LengthBytes, Zeros, Spliced, HashBlocks, InitialHash, PaddedWith;
      ghost var m, hash: Hash, left: Bytes64, off, bits := message, iv[..], leftover[..], leftoverOffset, bitsHashed;
      HoldsOffset(m, hash, left, off, bits);
      bitsHashed := (bitsHashed + 8 * leftoverOffset) % 0x1_0000_0000_0000_0000;
      Put(leftover, leftoverOffset, 0x80);
      leftoverOffset := leftoverOffset + 1;
      ghost var first: Bytes64 := left;
      if leftoverOffset > 56 {
        PadFilled(left, off, 64);
        Fill(leftover, leftoverOffset, 0, 64 - leftoverOffset);
        first := leftover[..];
        assert first[..64] == first;
        Compress(iv, leftover);
        leftoverOffset := 0;
        ZeroFilled(first);
      } else {
        PadFilled(left, off, 56);
      }
      Fill(leftover, leftoverOffset, 0, 56 - leftoverOffset);
      assert leftover[..56] == leftover[..][..56];
      CountOf(m, hash, left, off, bits);
      WriteLength(leftover, bitsHashed);
      if off < 56 {
        FinalOne(m, hash, left, off, bits, leftover[..], LengthBytes(8 * |m|));
      } else {
        FinalTwo(m, hash, left, off, bits, first, leftover[..], LengthBytes(8 * |m|));
      }
      Compress(iv, leftover);
    }

    /** tc_sha256_final: the digest goes to digest[at..at + 32], and the state is erased. */
    method Final(digest: array<bv8>, at: nat)
      requires Valid() && at + 32 <= digest.Length && digest != leftover
      modifies this, iv, leftover, digest
      ensures digest[..] == Spliced(old(digest[..]), at, Digest(old(message)))
      ensures Erased()
    {
      hide Holds, Digest, BytesOfHash, Spliced, Zeros;
      Pad();
      WriteDigest(digest, at, iv);
      Erase();
    }
  }

  /** The one bit behind the data and zeros up to place n. */
  lemma PadFilled(left: Bytes64, off: nat, n: nat)
    requires off < n <= 64
    ensures Spliced(left[off := 0x80], off + 1, seq(n - off - 1, _ => 0))[..n]
            == left[..off] + [0x80] + Zeros(n - off - 1)
  {
  }

  lemma ZeroFilled(left: Bytes64)
    ensures Spliced(left, 0, seq(56, _ => 0))[..56] == Zeros(56)
  {
  }

  lemma HoldsOffset(m: seq<bv8>, iv: Hash, left: Bytes64, off: nat, bits: nat)
    requires Holds(m, iv, left, off, bits)
    ensures off < 64
  {
  }
}
