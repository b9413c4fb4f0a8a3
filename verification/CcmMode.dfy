/** The CCM state and its two directions: tc_ccm_config, tc_ccm_generation_encryption and
    tc_ccm_decryption_verification. */
module CcmMode {
  import opened Blocks
  import opened Cbc
  import opened Ccm
  import opened Utils
  import opened Wrappers

  lemma MacByParts(E: BlockFn, nonce: Nonce, mlen: nat, aad: seq<bv8>, payload: seq<bv8>)
    requires MacLength(mlen)
    ensures Mac(E, nonce, mlen, aad, payload)
            == Chain(E, Chain(E, E(FirstBlock(nonce, mlen, aad != [], |payload|)), Blocks16(EncodedAad(aad))),
                     Blocks16(payload))
  {
    hide FirstBlock, Blocks16, EncodedAad;
    var b := FirstBlock(nonce, mlen, aad != [], |payload|);
    var x, y := Blocks16(EncodedAad(aad)), Blocks16(payload);
    ChainAppend(E, ZeroBlock(), [b] + x, y);
    ChainAppend(E, ZeroBlock(), [b], x);
    ChainOne(E, ZeroBlock(), b);
    XorWithZero(b);
  }

  lemma XorWithZero(b: Block)
    ensures XorBlock(ZeroBlock(), b) == b
  {
    forall i | 0 <= i < 16
      ensures XorBlock(ZeroBlock(), b)[i] == b[i]
    {
      XorZeroLeft(b[i]);
    }
  }

  lemma XorZeroLeft(a: bv8)
    ensures 0 ^ a == a
  {
  }

  lemma NoData(E: BlockFn, t: Block)
    ensures Chain(E, t, Blocks16([])) == t && Chain(E, t, Blocks16(EncodedAad([]))) == t
  {
  }

  /** The byte-wise XOR of two stretches of equal length. */
  function XorBytes(a: seq<bv8>, b: seq<bv8>): (r: seq<bv8>)
    requires |a| == |b|
    ensures |r| == |a|
  {
    seq(|a|, i requires 0 <= i < |a| => a[i] ^ b[i])
  }

  method XorInto(to: array<bv8>, at: nat, from: array<bv8>, start: nat, b: array<bv8>, n: nat)
    requires to != from && to != b && at + n <= to.Length && start + n <= from.Length && n <= b.Length
    modifies to
    ensures to[..] == Spliced(old(to[..]), at, XorBytes(from[start..start + n], b[..n]))
  {
    hide *;
    ghost var c, d := from[start..start + n], b[..n];
    ghost var before, x := to[..], XorBytes(c, d);
    var i := 0;
    SpliceStart(before, at, x);
    while i < n
      invariant 0 <= i <= n
      invariant to[..] == Spliced(before, at, x[..i])
    {
      ghost var now := to[..];
      XorByte(c, d, i);
      SpliceNext(before, at, x, i);
      to[at + i] := from[start + i] ^ b[i];
      assert to[..] == now[at + i := x[i]];
      i := i + 1;
    }
    assert x[..n] == x;
  }

  lemma XorByte(a: seq<bv8>, b: seq<bv8>, i: nat)
    requires i < |a| == |b|
    ensures XorBytes(a, b)[i] == a[i] ^ b[i]
  {
  }

  lemma MaskIsXor(E: BlockFn, nonce: Nonce, mlen: nat, t: seq<bv8>)
    requires mlen <= 16 && mlen <= |t|
    ensures MaskTag(E, nonce, mlen, t) == XorBytes(t[..mlen], E(CounterBlock(nonce, 0))[..mlen])
  {
  }

  /** The bytes of b around the nonce: flags in front, two bytes behind. */
  method Format(b: array<bv8>, flags: bv8, nonce: array<bv8>, n: nat)
    requires b.Length == 16 && nonce.Length >= 13 && b != nonce
    modifies b
    ensures b[..] == [flags] + nonce[..13] + TwoBytes(n)
  {
    hide TwoBytes;
    b[0] := flags;
    var i := 1;
    while i <= 13
      invariant 1 <= i <= 14 && b[0] == flags
      invariant forall j :: 1 <= j < i ==> b[j] == nonce[j - 1]
    {
      b[i] := nonce[i - 1];
      i := i + 1;
    }
    ghost var r := [flags] + nonce[..13] + TwoBytes(n);
    assert forall j :: 0 <= j < 14 ==> r[j] == b[j];
    SetTail(b, n, r);
  }

  method SetTail(b: array<bv8>, n: nat, ghost r: seq<bv8>)
    requires b.Length == 16 && |r| == 16 && (forall j :: 0 <= j < 14 ==> r[j] == b[j]) && r[14..] == TwoBytes(n)
    modifies b
    ensures b[..] == r
  {
    assert r[14] == r[14..][0] && r[15] == r[14..][1];
    b[14], b[15] := (n / 256 % 256) as bv8, (n % 256) as bv8;
  }

  lemma FirstCounter(iv: Nonce)
    ensures CounterBlock(iv, 0) == [1] + iv + TwoBytes(0)
  {
  }

  lemma NonceKept(iv: Nonce, n: nat, b: Block)
    requires b == CounterBlock(iv, 0) || b == After(CounterBlock(iv, 0), n)
    ensures b[..14] == [1] + iv
  {
  }

  /** Zeros in the counter bytes give A_0 again. */
  method ResetCounter(b: array<bv8>, ghost iv: Nonce)
    requires b.Length == 16 && b[..14] == [1] + iv
    modifies b
    ensures b[..] == CounterBlock(iv, 0)
  {
    ghost var r := [1] + iv + TwoBytes(0);
    assert forall j :: 0 <= j < 14 ==> b[j] == b[..14][j] == r[j];
    SetTail(b, 0, r);
  }

  /** The tag before masking: B_0 is in b; the tag may replace it there. */
  method Authenticate(tag: array<bv8>, b: array<bv8>, aad: array<bv8>, alen: nat, data: array<bv8>, dlen: nat,
          E: BlockFn, ghost nonce: Nonce, ghost mlen: nat)
    requires tag.Length == 16 && b.Length == 16 && tag != aad && tag != data
    requires alen <= aad.Length && dlen <= data.Length && MacLength(mlen)
    requires b[..] == FirstBlock(nonce, mlen, alen > 0, dlen)
    modifies tag
    ensures tag[..] == Mac(E, nonce, mlen, aad[..alen], data[..dlen])
  {
    hide Mac, Chain, Blocks16, FirstBlock, EncodedAad, TwoBytes;
    MacByParts(E, nonce, mlen, aad[..alen], data[..dlen]);
    Encrypt(tag, b, E);
    NoData(E, tag[..]);
    if alen > 0 {
      CbcMac(tag, aad, alen, true, E);
    } else {
      assert aad[..alen] == [];
    }
    NoData(E, tag[..]);
    if dlen > 0 {
      CbcMac(tag, data, dlen, false, E);
    } else {
      assert data[..dlen] == [];
    }
  }

  /** The payload under the key stream, whichever direction, and then S_0 in b. The output may be the input buffer. */
  method Crypt(out: array<bv8>, input: array<bv8>, n: nat, b: array<bv8>, nonce: array<bv8>, E: BlockFn)
    requires n <= out.Length && n <= input.Length && b.Length == 16 && nonce.Length >= 13 && b !in {out, input, nonce}
    modifies out, b
    ensures out[..] == Stream(E, old(nonce[..13]), old(input[..n])) + old(out[n..])
    ensures b[..] == E(CounterBlock(old(nonce[..13]), 0))
  {
    hide *;
    ghost var iv: Nonce, data, before := nonce[..13], input[..n], out[..];
    Format(b, 1, nonce, 0);
    FirstCounter(iv);
    KeyStreamIsStream(E, iv, data);
    var _ := CtrMode(out, n, input, n, b, E);
    if n == 0 {
      assert before == Stream(E, iv, data) + before[0..];
    }
    NonceKept(iv, BlockCount(n), b[..]);
    ResetCounter(b, iv);
    Encrypt(b, b, E);
  }

  class CcmState {
    /** The key schedule, as the block function it stands for. */
    var sched: BlockFn
    var nonce: array<bv8>
    var mlen: nat

    ghost predicate Valid()
      reads this
    {
      nonce.Length >= 13 && MacLength(mlen)
    }

    constructor ()
      ensures fresh(nonce) && nonce.Length == 0
    {
      sched, nonce, mlen := b => b, new bv8[0], 0;
    }

    /** A refused configuration leaves the state as it was. */
    method Config(E: BlockFn, n: array<bv8>, nlen: nat, m: nat) returns (ok: bool)
      requires nlen <= n.Length
      modifies this
      ensures ok <==> nlen == 13 && m in {4, 6, 8, 10, 12, 14, 16}
      ensures ok ==> Valid() && sched == E && nonce == n && mlen == m
      ensures !ok ==> sched == old(sched) && nonce == old(nonce) && mlen == old(mlen)
    {
      if nlen != 13 || m < 4 || m > 16 || m % 2 == 1 {
        return false;
      }
      sched, nonce, mlen := E, n, m;
      ok := true;
    }

    /** Encrypts and authenticates. The output may be the payload buffer or the associated data. */
    method GenerationEncryption(out: array<bv8>, olen: nat, aad: array<bv8>, alen: nat, payload: array<bv8>, plen: nat)
      returns (ok: bool)
      requires Valid() && olen <= out.Length && alen <= aad.Length && plen <= payload.Length
      modifies out
      ensures var sealed := Seal(sched, old(nonce[..13]), mlen, old(aad[..alen]), old(payload[..plen]));
              && (ok <==> sealed.Some? && plen + mlen <= olen)
              && (ok ==> out[..] == sealed.value + old(out[plen + mlen..]))
              && (!ok ==> out[..] == old(out[..]))
    {
      hide Seal, Stream, MaskTag, Mac;
      SealCases(sched, nonce[..13], mlen, aad[..alen], payload[..plen]);
      if alen >= AAD_MAX_BYTES || plen >= PAYLOAD_MAX_BYTES || olen < plen + mlen {
        return false;
      }
      var b, tag := new bv8[16], new bv8[16];
      Produce(out, aad, alen, payload, plen, b, tag);
      ok := true;
    }

    method Produce(out: array<bv8>, aad: array<bv8>, alen: nat, payload: array<bv8>, plen: nat, b: array<bv8>,
                   tag: array<bv8>)
      requires Valid() && b.Length == 16 && tag.Length == 16 && alen <= aad.Length && plen <= payload.Length
      requires b != tag && b !in {out, aad, payload, nonce} && tag !in {out, aad, payload, nonce}
      requires plen + mlen <= out.Length
      modifies out, b, tag
      ensures out[..] == Stream(sched, old(nonce[..13]), old(payload[..plen]))
                         + MaskTag(sched, old(nonce[..13]), mlen,
                                   Mac(sched, old(nonce[..13]), mlen, old(aad[..alen]), old(payload[..plen])))
                         + old(out[plen + mlen..])
    {
      hide Stream, MaskTag, Mac, XorBytes, FirstBlock, Spliced, AuthFlags, TwoBytes, CounterBlock;
      ghost var E, iv: Nonce, a, p := sched, nonce[..13], aad[..alen], payload[..plen];
      ghost var before := out[..];
      Format(b, AuthFlags(alen > 0, mlen), nonce, plen);
      FormatIsFirst(iv, mlen, alen > 0, plen);
      Authenticate(tag, b, aad, alen, payload, plen, sched, iv, mlen);
      ghost var mac := Mac(E, iv, mlen, a, p);
      Crypt(out, payload, plen, b, nonce, sched);
      ghost var middle := out[..];
      MaskIsXor(E, iv, mlen, mac);
      XorInto(out, plen, tag, 0, b, mlen);
      assert tag[0..0 + mlen] == mac[..mlen] && b[..mlen] == E(CounterBlock(iv, 0))[..mlen];
      Joined(before, Stream(E, iv, p), MaskTag(E, iv, mlen, mac));
    }

    /** Decrypts and verifies. On a wrong tag the whole output range is zero. The output may be the message buffer.
        Messages shorter than the tag make the size check wrap around; no caller has a buffer that large. */
    method DecryptionVerification(out: array<bv8>, olen: nat, aad: array<bv8>, alen: nat, message: array<bv8>,
                                  plen: nat)
      returns (ok: bool)
      requires Valid() && olen <= out.Length && alen <= aad.Length && plen <= message.Length
      requires plen >= mlen || olen < 0x1_0000_0000 + plen - mlen
      requires out != aad && out != nonce
      modifies out
      ensures plen < mlen || olen < plen - mlen ==> !ok && out[..] == old(out[..])
      ensures mlen <= plen <= olen + mlen ==>
                var plain := Open(sched, nonce[..13], mlen, aad[..alen], old(message[..plen]));
                && (ok <==> plain.Some?)
                && (ok ==> out[..] == plain.value + old(out[plen - mlen..]))
                && (!ok ==> out[..] == if alen >= AAD_MAX_BYTES || plen >= PAYLOAD_MAX_BYTES then old(out[..])
                                       else seq(plen - mlen, _ => 0) + old(out[plen - mlen..]))
    {
      hide Open, Stream, MaskTag, Mac;
      if mlen <= plen {
        OpenCases(sched, nonce[..13], mlen, aad[..alen], message[..plen]);
        assert message[..plen][..plen - mlen] == message[..plen - mlen]
               && message[..plen][plen - mlen..] == message[plen - mlen..plen];
      }
      if alen >= AAD_MAX_BYTES || plen >= PAYLOAD_MAX_BYTES || olen < (plen - mlen) % 0x1_0000_0000 {
        return false;
      }
      var b, tag := new bv8[16], new bv8[16];
      ok := Check(out, aad, alen, message, plen, b, tag);
    }

    method Check(out: array<bv8>, aad: array<bv8>, alen: nat, message: array<bv8>, plen: nat, b: array<bv8>,
                 tag: array<bv8>)
      returns (ok: bool)
      requires Valid() && b.Length == 16 && tag.Length == 16 && alen <= aad.Length && plen <= message.Length
      requires b != tag && b !in {out, aad, message, nonce} && tag !in {out, aad, message, nonce}
      requires mlen <= plen && plen - mlen <= out.Length && out != aad && out != nonce
      modifies out, b, tag
      ensures var n := plen - mlen;
              var p := Stream(sched, nonce[..13], old(message[..n]));
              && (ok <==> Mac(sched, nonce[..13], mlen, aad[..alen], p)[..mlen]
                          == MaskTag(sched, nonce[..13], mlen, old(message[n..plen])))
              && out[..] == (if ok then p else seq(n, _ => 0)) + old(out[n..])
    {
      hide Stream, MaskTag, Mac, XorBytes, FirstBlock, Spliced, AuthFlags, TwoBytes, CounterBlock;
      ghost var E, iv: Nonce, a := sched, nonce[..13], aad[..alen];
      var n := plen - mlen;
      ghost var before, cipher, tail := out[..], message[..n], message[n..plen];
      ghost var p := Stream(E, iv, cipher);
      Crypt(out, message, n, b, nonce, sched);
      assert message[n..n + mlen] == tail by {
        assert message == out ==> message[n..plen] == out[..][n..plen] == before[n..plen];
      }
      MaskIsXor(E, iv, mlen, tail);
      XorInto(tag, 0, message, n, b, mlen);
      assert tag[..mlen] == MaskTag(E, iv, mlen, tail) by {
        SplicedFront(old(tag[..]), MaskTag(E, iv, mlen, tail));
        assert tail[..mlen] == tail && b[..mlen] == E(CounterBlock(iv, 0))[..mlen];
      }
      ok := Confirm(out, aad, alen, n, b, tag, p, iv, before[n..]);
    }

    /** The tag of the decrypted bytes against the one received; a mismatch erases them. */
    method Confirm(out: array<bv8>, aad: array<bv8>, alen: nat, n: nat, b: array<bv8>, tag: array<bv8>,
            ghost p: seq<bv8>, ghost iv: Nonce, ghost rest: seq<bv8>)
      returns (ok: bool)
      requires Valid() && b.Length == 16 && tag.Length == 16 && alen <= aad.Length && n == |p|
      requires b != tag && b !in {out, aad, nonce} && tag !in {out, aad, nonce}
      requires out != aad && out != nonce && iv == nonce[..13] && out[..] == p + rest
      modifies out, b
      ensures ok <==> Mac(sched, iv, mlen, aad[..alen], p)[..mlen] == tag[..mlen]
      ensures out[..] == (if ok then p else seq(n, _ => 0)) + rest
    {
      hide Mac, FirstBlock, Spliced, AuthFlags, TwoBytes;
      Format(b, AuthFlags(alen > 0, mlen), nonce, n);
      FormatIsFirst(iv, mlen, alen > 0, n);
      assert out[..n] == p;
      Authenticate(b, b, aad, alen, out, n, sched, iv, mlen);
      assert b[..mlen] == b[..][..mlen];
      var difference := Compare(b, tag, mlen);
      ok := difference == 0;
      if !ok {
        Fill(out, 0, 0, n);
        SplicedOver(p, rest, seq(n, _ => 0));
      }
    }
  }

  lemma FormatIsFirst(iv: Nonce, mlen: nat, hasAad: bool, n: nat)
    requires MacLength(mlen)
    ensures FirstBlock(iv, mlen, hasAad, n) == [AuthFlags(hasAad, mlen)] + iv + TwoBytes(n)
  {
  }

  lemma SplicedOver(p: seq<bv8>, rest: seq<bv8>, d: seq<bv8>)
    requires |d| == |p|
    ensures Spliced(p + rest, 0, d) == d + rest
  {
  }

  /** Ciphertext, then the masked tag, then what was there before. */
  lemma Joined(before: seq<bv8>, c: seq<bv8>, t: seq<bv8>)
    requires |c| + |t| <= |before|
    ensures Spliced(c + before[|c|..], |c|, t) == c + t + before[|c| + |t|..]
  {
  }

  lemma SealCases(E: BlockFn, nonce: Nonce, mlen: nat, aad: seq<bv8>, payload: seq<bv8>)
    requires MacLength(mlen)
    ensures Seal(E, nonce, mlen, aad, payload)
            == if |aad| >= AAD_MAX_BYTES || |payload| >= PAYLOAD_MAX_BYTES then None
               else Some(Stream(E, nonce, payload) + MaskTag(E, nonce, mlen, Mac(E, nonce, mlen, aad, payload)))
  {
  }

  lemma OpenCases(E: BlockFn, nonce: Nonce, mlen: nat, aad: seq<bv8>, message: seq<bv8>)
    requires MacLength(mlen) && mlen <= |message|
    ensures var n := |message| - mlen;
            var payload := Stream(E, nonce, message[..n]);
            Open(E, nonce, mlen, aad, message)
            == if |aad| >= AAD_MAX_BYTES || |message| >= PAYLOAD_MAX_BYTES then None
               else if Mac(E, nonce, mlen, aad, payload)[..mlen] == MaskTag(E, nonce, mlen, message[n..])
               then Some(payload)
               else None
  {
  }
}
