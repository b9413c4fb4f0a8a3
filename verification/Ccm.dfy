/** Counter with CBC-MAC (RFC 3610 with L = 2), for an arbitrary block function. */
module Ccm {
  import opened Blocks
  import opened Cbc
  import opened Utils
  import opened Wrappers

  type Nonce = s: seq<bv8> | |s| == 13 witness [0, 0, 0, 0, 0, 0, 0, 0, 0, 0, 0, 0, 0]

  const AAD_MAX_BYTES := 0xff00
  const PAYLOAD_MAX_BYTES := 0x10000

  predicate MacLength(m: nat) {
    4 <= m <= 16 && m % 2 == 0
  }

  /** The two low bytes of n, most significant first. */
  function TwoBytes(n: nat): (r: seq<bv8>)
    ensures |r| == 2
  {
    [(n / 256 % 256) as bv8, (n % 256) as bv8]
  }

  // ---- The definitions of RFC 3610 ----

  /** The flags of B_0: section 2.2. */
  function AuthFlags(hasAad: bool, mlen: nat): bv8
    requires MacLength(mlen)
  {
    (if hasAad then 0x40 else 0) | ((((mlen - 2) / 2) as bv8) << 3) | 1
  }

  function FirstBlock(nonce: Nonce, mlen: nat, hasAad: bool, plen: nat): Block
    requires MacLength(mlen)
  {
    [AuthFlags(hasAad, mlen)] + nonce + TwoBytes(plen)
  }

  /** The additional authenticated data with its length in front; nothing at all when there is none. */
  function EncodedAad(aad: seq<bv8>): seq<bv8> {
    if aad == [] then [] else TwoBytes(|aad|) + aad
  }

  /** T, before truncation: CBC-MAC over B_0, the padded additional data and the padded payload. */
  function Mac(E: BlockFn, nonce: Nonce, mlen: nat, aad: seq<bv8>, payload: seq<bv8>): Block
    requires MacLength(mlen)
  {
    Chain(E, ZeroBlock(), [FirstBlock(nonce, mlen, aad != [], |payload|)] + Blocks16(EncodedAad(aad))
          + Blocks16(payload))
  }

  /** A_n: section 2.3. */
  function CounterBlock(nonce: Nonce, n: nat): Block {
    [1] + nonce + TwoBytes(n)
  }

  /** The payload under the key stream S_1, S_2, ... */
  function Stream(E: BlockFn, nonce: Nonce, data: seq<bv8>): (r: seq<bv8>)
    ensures |r| == |data|
  {
    seq(|data|, i requires 0 <= i < |data| => E(CounterBlock(nonce, i / 16 + 1))[i % 16] ^ data[i])
  }

  /** The first mlen bytes of t under S_0. */
  function MaskTag(E: BlockFn, nonce: Nonce, mlen: nat, t: seq<bv8>): (r: seq<bv8>)
    requires mlen <= |t| && mlen <= 16
    ensures |r| == mlen
  {
    seq(mlen, i requires 0 <= i < mlen => t[i] ^ E(CounterBlock(nonce, 0))[i])
  }

  /** The authenticated encryption: section 2.4. */
  function Seal(E: BlockFn, nonce: Nonce, mlen: nat, aad: seq<bv8>, payload: seq<bv8>): Option<seq<bv8>>
    requires MacLength(mlen)
  {
    if |aad| >= AAD_MAX_BYTES || |payload| >= PAYLOAD_MAX_BYTES then None
    else Some(Stream(E, nonce, payload) + MaskTag(E, nonce, mlen, Mac(E, nonce, mlen, aad, payload)))
  }

  /** Decryption and verification: section 2.5, with the size check the code makes on the whole message. */
  function Open(E: BlockFn, nonce: Nonce, mlen: nat, aad: seq<bv8>, message: seq<bv8>): Option<seq<bv8>>
    requires MacLength(mlen) && mlen <= |message|
  {
    if |aad| >= AAD_MAX_BYTES || |message| >= PAYLOAD_MAX_BYTES then None
    else
      var n := |message| - mlen;
      var payload := Stream(E, nonce, message[..n]);
      if Mac(E, nonce, mlen, aad, payload)[..mlen] == MaskTag(E, nonce, mlen, message[n..]) then Some(payload) else None
  }

  // ---- The formats, field by field ----

  /** The flags of section 2.2 of RFC 3610: a reserved zero, Adata, M' = (M - 2) / 2 and L' = L - 1 with L = 15 - 13. */
  lemma FlagFields(hasAad: bool, mlen: nat)
    requires MacLength(mlen)
    ensures var f := AuthFlags(hasAad, mlen);
            && f & 0x80 == 0 && (f & 0x40 != 0 <==> hasAad)
            && 2 * (((f >> 3) & 7) as nat) + 2 == mlen && ((f & 7) as nat) + 1 == 15 - 13
  {
    var half := (mlen - 2) / 2;
    assert half in {1, 2, 3, 4, 5, 6, 7} && mlen == 2 * half + 2;
    assert half == 1 || half == 2 || half == 3 || half == 4 || half == 5 || half == 6 || half == 7;
  }

  /** Sealing succeeds for additional data below 65280 bytes and payloads below 65536 bytes, and opening only for
      messages below 65536 bytes. */
  lemma SizeLimits(E: BlockFn, nonce: Nonce, mlen: nat, aad: seq<bv8>, payload: seq<bv8>, message: seq<bv8>)
    requires MacLength(mlen) && mlen <= |message|
    ensures Seal(E, nonce, mlen, aad, payload).Some? <==> |aad| < 65280 && |payload| < 65536
    ensures Open(E, nonce, mlen, aad, message).Some? ==> |aad| < 65280 && |message| < 65536
  {
    hide Mac, Stream, MaskTag;
  }

  // ---- What the two directions mean for each other ----

  lemma StreamTwice(E: BlockFn, nonce: Nonce, data: seq<bv8>)
    ensures Stream(E, nonce, Stream(E, nonce, data)) == data
  {
    var once := Stream(E, nonce, data);
    forall i | 0 <= i < |data|
      ensures Stream(E, nonce, once)[i] == data[i]
    {
      XorBack(E(CounterBlock(nonce, i / 16 + 1))[i % 16], data[i]);
    }
  }

  lemma XorBack(a: bv8, b: bv8)
    ensures a ^ (a ^ b) == b
  {
  }

  lemma MaskTwice(E: BlockFn, nonce: Nonce, mlen: nat, t: seq<bv8>)
    requires mlen <= |t| && mlen <= 16
    ensures MaskTag(E, nonce, mlen, MaskTag(E, nonce, mlen, t)) == t[..mlen]
  {
    var once := MaskTag(E, nonce, mlen, t);
    forall i | 0 <= i < mlen
      ensures MaskTag(E, nonce, mlen, once)[i] == t[..mlen][i]
    {
      XorTwice(t[i], E(CounterBlock(nonce, 0))[i]);
    }
  }

  /** Masking looks only at the bytes it keeps. */
  lemma MaskPrefix(E: BlockFn, nonce: Nonce, mlen: nat, t: seq<bv8>)
    requires mlen <= |t| && mlen <= 16
    ensures MaskTag(E, nonce, mlen, t[..mlen]) == MaskTag(E, nonce, mlen, t)
  {
  }

  /** Decrypting what was encrypted gives the payload back, exactly when payload and tag together stay
      below 65536 bytes: encryption limits the payload, decryption limits the payload with its tag. */
  lemma RoundTrip(E: BlockFn, nonce: Nonce, mlen: nat, aad: seq<bv8>, payload: seq<bv8>)
    requires MacLength(mlen)
    requires Seal(E, nonce, mlen, aad, payload).Some?
    ensures var message := Seal(E, nonce, mlen, aad, payload).value;
            Open(E, nonce, mlen, aad, message)
            == if |payload| + mlen < PAYLOAD_MAX_BYTES then Some(payload) else None
  {
    hide Mac, Stream, MaskTag;
    var tag := MaskTag(E, nonce, mlen, Mac(E, nonce, mlen, aad, payload));
    var message := Stream(E, nonce, payload) + tag;
    assert message[..|payload|] == Stream(E, nonce, payload) && message[|payload|..] == tag;
    StreamTwice(E, nonce, payload);
    MaskTwice(E, nonce, mlen, Mac(E, nonce, mlen, aad, payload));
  }

  /** The longest payloads that can be encrypted cannot be decrypted, whatever the cipher is. */
  lemma LongestPayloadIsLost(E: BlockFn, nonce: Nonce, mlen: nat, payload: seq<bv8>)
    requires MacLength(mlen) && |payload| == 0xFFFF
    ensures var sealed := Seal(E, nonce, mlen, [], payload);
            sealed.Some? && |sealed.value| == 0xFFFF + mlen && Open(E, nonce, mlen, [], sealed.value).None?
  {
    RoundTrip(E, nonce, mlen, [], payload);
  }

  /** Decryption accepts exactly the messages that encryption produces, and answers what was encrypted. */
  lemma OpenIffSealed(E: BlockFn, nonce: Nonce, mlen: nat, aad: seq<bv8>, message: seq<bv8>, payload: seq<bv8>)
    requires MacLength(mlen) && mlen <= |message|
    ensures Open(E, nonce, mlen, aad, message) == Some(payload)
            <==> |message| < PAYLOAD_MAX_BYTES && Seal(E, nonce, mlen, aad, payload) == Some(message)
  {
    hide Mac, Stream, MaskTag;
    if Open(E, nonce, mlen, aad, message) == Some(payload) {
      var n := |message| - mlen;
      StreamTwice(E, nonce, message[..n]);
      var t := Mac(E, nonce, mlen, aad, payload);
      MaskTwice(E, nonce, mlen, message[n..]);
      MaskPrefix(E, nonce, mlen, t);
      assert MaskTag(E, nonce, mlen, t[..mlen]) == message[n..][..mlen] == message[n..];
      assert Stream(E, nonce, payload) + MaskTag(E, nonce, mlen, t) == message[..n] + message[n..] == message;
    }
    if |message| < PAYLOAD_MAX_BYTES && Seal(E, nonce, mlen, aad, payload) == Some(message) {
      RoundTrip(E, nonce, mlen, aad, payload);
    }
  }

  // ---- CBC-MAC, one byte at a time ----

  /** T after the bytes s[..i]. */
  ghost predicate MacAt(E: BlockFn, t: Block, s: seq<bv8>, i: nat, now: Block)
    requires i <= |s|
  {
    if i == |s| then now == Chain(E, t, Blocks16(s)) else now == Running(E, t, s, i)
  }

  lemma MacByte(E: BlockFn, t: Block, s: seq<bv8>, i: nat, now: Block, x: bv8)
    requires i < |s| && MacAt(E, t, s, i, now) && x == now[i % 16] ^ s[i]
    ensures (i + 1) % 16 != 0 && i + 1 != |s| ==> MacAt(E, t, s, i + 1, now[i % 16 := x])
    ensures (i + 1) % 16 == 0 || i + 1 == |s| ==> MacAt(E, t, s, i + 1, E(now[i % 16 := x]))
  {
    hide Running, Chain, Blocks16;
    if (i + 1) % 16 == 0 || i + 1 == |s| {
      RunningBlock(E, t, s, i);
      if i + 1 == |s| {
        assert s[..i + 1] == s;
      } else {
        RunningBoundary(E, t, s, i + 1);
      }
    } else {
      RunningByte(E, t, s, i);
    }
  }

  lemma MacStart(E: BlockFn, t: Block, s: seq<bv8>)
    requires s != []
    ensures MacAt(E, t, s, 0, t)
  {
    RunningStart(E, t, s);
  }

  lemma MacEnd(E: BlockFn, t: Block, s: seq<bv8>, now: Block)
    requires MacAt(E, t, s, |s|, now)
    ensures now == Chain(E, t, Blocks16(s))
  {
  }

  /** The two length bytes at the front. */
  lemma MacPrefix(E: BlockFn, t: Block, s: seq<bv8>, now: Block)
    requires 2 < |s| && now == t[0 := t[0] ^ s[0]][1 := t[1] ^ s[1]]
    ensures MacAt(E, t, s, 2, now)
  {
    hide Running, Chain, Blocks16;
    RunningStart(E, t, s);
    RunningByte(E, t, s, 0);
    RunningByte(E, t, s, 1);
  }

  /** The state in which the loop is entered. */
  lemma LoopEntry(E: BlockFn, t: Block, data: seq<bv8>, flag: bool, now: Block)
    requires now == if flag then t[0 := t[0] ^ TwoBytes(|data|)[0]][1 := t[1] ^ TwoBytes(|data|)[1]] else t
    ensures data == [] ==> now == t && Chain(E, t, Blocks16([])) == t
    ensures data != [] ==> MacAt(E, t, (if flag then TwoBytes(|data|) else []) + data, if flag then 2 else 0, now)
  {
    hide MacAt, Running, TwoBytes;
    if data == [] {
      NoLength();
      NothingXored(t);
    } else if flag {
      MacPrefix(E, t, TwoBytes(|data|) + data, now);
    } else {
      assert [] + data == data;
      MacStart(E, t, data);
    }
  }

  lemma NoLength()
    ensures TwoBytes(0) == [0, 0]
  {
  }

  lemma NothingXored(t: Block)
    ensures t[0 := t[0] ^ 0][1 := t[1] ^ 0] == t
  {
    XorZero(t[0]);
    XorZero(t[1]);
  }

  lemma LoopExit(E: BlockFn, t: Block, d: seq<bv8>, flag: bool, now: Block)
    requires d == [] ==> now == t && Chain(E, t, Blocks16([])) == t
    requires d != [] ==> var s := (if flag then TwoBytes(|d|) else []) + d; MacAt(E, t, s, |s|, now)
    ensures now == Chain(E, t, Blocks16(if flag then EncodedAad(d) else d))
  {
    hide TwoBytes, Blocks16, Chain, MacAt;
    if d != [] {
      MacEnd(E, t, (if flag then TwoBytes(|d|) else []) + d, now);
      assert [] + d == d;
    }
  }

  lemma LengthBytes(n: nat)
    ensures TwoBytes(n)[0] == (n / 256 % 256) as bv8 && TwoBytes(n)[1] == (n % 256) as bv8
  {
  }

  method MixIn(T: array<bv8>, k: nat, x: bv8)
    requires k < T.Length
    modifies T
    ensures T[..] == old(T[..])[k := old(T[k]) ^ x]
  {
    T[k] := T[k] ^ x;
  }

  /** ccm_cbc_mac(T, data, dlen, flag): extends the chain by the padded blocks of the data, with its length
      in two bytes in front of it when flag is set. Nothing happens on empty data. */
  method CbcMac(T: array<bv8>, data: array<bv8>, dlen: nat, flag: bool, E: BlockFn)
    requires T.Length == 16 && T != data && dlen <= data.Length
    modifies T
    ensures T[..] == Chain(E, old(T[..]), Blocks16(if flag then EncodedAad(data[..dlen]) else data[..dlen]))
  {
    hide *;
    ghost var t: Block := T[..];
    ghost var d := data[..dlen];
    ghost var s := (if flag then TwoBytes(dlen) else []) + d;
    var i, len, at := 0, dlen, 0;
    if flag {
      LengthBytes(dlen);
      MixIn(T, 0, (dlen / 256 % 256) as bv8);
      MixIn(T, 1, (dlen % 256) as bv8);
      len, i := dlen + 2, 2;
    }
    LoopEntry(E, t, d, flag, T[..]);
    while i < len
      invariant i <= len == |s| && at == i - (if flag then 2 else 0)
      invariant dlen == 0 ==> i == len && T[..] == t
      invariant dlen > 0 ==> MacAt(E, t, s, i, T[..])
    {
      ghost var now: Block := T[..];
      assert s[i] == data[at];
      MacByte(E, t, s, i, now, now[i % 16] ^ s[i]);
      MixIn(T, i % 16, data[at]);
      i, at := i + 1, at + 1;
      if i % 16 == 0 || len == i {
        Encrypt(T, T, E);
      }
    }
    LoopExit(E, t, d, flag, T[..]);
  }

  // ---- Counter mode with a two-byte counter, increased before each use ----

  function Count(b: Block): (n: nat)
    ensures n < 0x10000
  {
    b[14] as int * 256 + b[15] as int
  }

  /** The counter block n increments after b; the counter is a 16-bit word. */
  function After(b: Block, n: nat): Block {
    b[..14] + TwoBytes(Count(b) + n)
  }

  function KeyStream(E: BlockFn, b: Block, data: seq<bv8>): (r: seq<bv8>)
    ensures |r| == |data|
  {
    seq(|data|, i requires 0 <= i < |data| => E(After(b, i / 16 + 1))[i % 16] ^ data[i])
  }

  lemma KeyStreamByte(E: BlockFn, b: Block, data: seq<bv8>, i: nat)
    requires i < |data|
    ensures KeyStream(E, b, data)[i] == E(After(b, i / 16 + 1))[i % 16] ^ data[i]
  {
  }

  /** From A_0 the key stream blocks are S_1, S_2, ... */
  lemma KeyStreamIsStream(E: BlockFn, nonce: Nonce, data: seq<bv8>)
    ensures KeyStream(E, CounterBlock(nonce, 0), data) == Stream(E, nonce, data)
  {
    var b := CounterBlock(nonce, 0);
    assert b[14] == 0 && b[15] == 0 && b[..14] == [1] + nonce;
    forall i | 0 <= i < |data|
      ensures KeyStream(E, b, data)[i] == Stream(E, nonce, data)[i]
    {
      hide TwoBytes;
      assert After(b, i / 16 + 1) == CounterBlock(nonce, i / 16 + 1);
    }
  }

  lemma TwoBytesWrap(n: nat, m: nat)
    requires m % 0x10000 == n % 0x10000
    ensures TwoBytes(m) == TwoBytes(n)
  {
    assert n == 0x10000 * (n / 0x10000) + n % 0x10000 && m == 0x10000 * (m / 0x10000) + m % 0x10000;
    TwoBytesOf(n % 0x10000, n / 0x10000);
    TwoBytesOf(n % 0x10000, m / 0x10000);
  }

  lemma TwoBytesOf(r: nat, q: nat)
    ensures (r + 0x10000 * q) / 256 % 256 == r / 256 % 256 && (r + 0x10000 * q) % 256 == r % 256
  {
    assert (r + 256 * (256 * q)) / 256 == r / 256 + 256 * q;
  }

  /** The loop's local state before byte i. */
  ghost predicate StreamAt(E: BlockFn, start: Block, i: nat, nonce: Block, blockNum: nat, buffer: Block) {
    && nonce[..14] == start[..14]
    && blockNum == (Count(start) + BlockCount(i)) % 0x10000
    && (i > 0 ==> nonce == After(start, BlockCount(i)))
    && (i % 16 != 0 ==> buffer == E(After(start, i / 16 + 1)))
  }

  lemma StreamStart(E: BlockFn, start: Block, buffer: Block)
    ensures StreamAt(E, start, 0, start, Count(start), buffer)
  {
    hide TwoBytes, After, Count;
  }

  lemma StreamInBlock(E: BlockFn, start: Block, i: nat, nonce: Block, blockNum: nat, buffer: Block)
    requires StreamAt(E, start, i, nonce, blockNum, buffer) && i % 16 != 0
    ensures buffer == E(After(start, i / 16 + 1)) && StreamAt(E, start, i + 1, nonce, blockNum, buffer)
  {
    hide After, Count;
    assert BlockCount(i + 1) == BlockCount(i);
    if (i + 1) % 16 != 0 {
      assert (i + 1) / 16 == i / 16;
    }
  }

  lemma StreamNewBlock(E: BlockFn, start: Block, i: nat, nonce: Block, blockNum: nat, buffer: Block, now: Block)
    requires StreamAt(E, start, i, nonce, blockNum, buffer) && i % 16 == 0
    requires now == nonce[..14] + TwoBytes((blockNum + 1) % 0x10000)
    ensures now == After(start, i / 16 + 1)
    ensures StreamAt(E, start, i + 1, now, (blockNum + 1) % 0x10000, E(now))
  {
    hide TwoBytes, Count;
    assert BlockCount(i) == i / 16 && BlockCount(i + 1) == i / 16 + 1 && (i + 1) / 16 == i / 16;
    TwoBytesWrap(Count(start) + i / 16 + 1, (blockNum + 1) % 0x10000);
  }

  lemma StreamEnd(E: BlockFn, start: Block, n: nat, nonce: Block, blockNum: nat, buffer: Block)
    requires StreamAt(E, start, n, nonce, blockNum, buffer) && n > 0
    ensures nonce == After(start, BlockCount(n)) && nonce[..14] == start[..14]
  {
  }

  /** The counter is increased, written into the nonce and encrypted. */
  method NextBlock(E: BlockFn, ghost start: Block, ghost i: nat, nonce: Block, blockNum: nat, ghost buffer: Block)
    returns (nonce': Block, blockNum': nat, buffer': Block)
    requires StreamAt(E, start, i, nonce, blockNum, buffer) && i % 16 == 0
    ensures buffer' == E(After(start, i / 16 + 1)) && StreamAt(E, start, i + 1, nonce', blockNum', buffer')
  {
    hide *;
    blockNum' := (blockNum + 1) % 0x10000;
    nonce' := nonce[..14] + TwoBytes(blockNum');
    StreamNewBlock(E, start, i, nonce, blockNum, buffer, nonce');
    buffer' := E(nonce');
  }

  /** ccm_ctr_mode: the output may be the input buffer. */
  method CtrMode(out: array<bv8>, outlen: nat, input: array<bv8>, inlen: nat, ctr: array<bv8>, E: BlockFn)
    returns (ok: bool)
    requires outlen <= out.Length && inlen <= input.Length && ctr.Length == 16 && ctr != out && ctr != input
    modifies out, ctr
    ensures ok <==> inlen != 0 && outlen == inlen
    ensures !ok ==> out[..] == old(out[..]) && ctr[..] == old(ctr[..])
    ensures ok ==> out[..] == KeyStream(E, old(ctr[..]), old(input[..inlen])) + old(out[inlen..])
    ensures ok ==> ctr[..] == After(old(ctr[..]), BlockCount(inlen))
  {
    hide *;
    if inlen == 0 || outlen == 0 || outlen != inlen {
      return false;
    }
    ghost var start: Block := ctr[..];
    ghost var data, before := input[..inlen], out[..];
    ghost var stream := KeyStream(E, start, data);
    var nonce: Block := ctr[..];
    var buffer: Block := *;
    var blockNum: nat := Count(nonce);
    var i := 0;
    StreamStart(E, start, buffer);
    OverwriteEnds(before, stream);
    while i < inlen
      modifies out
      invariant 0 <= i <= inlen && StreamAt(E, start, i, nonce, blockNum, buffer)
      invariant out[..] == Overwritten(before, stream, i)
    {
      KeyStreamByte(E, start, data, i);
      OverwriteNext(before, stream, i);
      if i % 16 == 0 {
        nonce, blockNum, buffer := NextBlock(E, start, i, nonce, blockNum, buffer);
      } else {
        StreamInBlock(E, start, i, nonce, blockNum, buffer);
      }
      assert input[i] == data[i] by {
        assert input == out ==> input[i] == out[..][i] == before[i];
      }
      Put(out, i, buffer[i % 16] ^ input[i]);
      i := i + 1;
    }
    StreamEnd(E, start, inlen, nonce, blockNum, buffer);
    WriteCounter(ctr, nonce);
    ok := true;
  }

  method WriteCounter(ctr: array<bv8>, nonce: Block)
    requires ctr.Length == 16 && ctr[..14] == nonce[..14]
    modifies ctr
    ensures ctr[..] == nonce
  {
    assert forall j :: 0 <= j < 14 ==> ctr[j] == ctr[..14][j] == nonce[..14][j] == nonce[j];
    ctr[14], ctr[15] := nonce[14], nonce[15];
  }
}
