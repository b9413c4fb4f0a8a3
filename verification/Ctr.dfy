/** Counter mode with a 32-bit counter: tc_ctr_mode. */
module Ctr {
  import opened Arith
  import opened Blocks
  import opened Utils
  import opened Word32

  /** The counter in the last four bytes. */
  function CounterOf(b: Block): bv32 {
    BigEndian(b[12], b[13], b[14], b[15])
  }

  function WithCounter(b: Block, n: bv32): Block {
    b[..12] + [((n >> 24) & 0xFF) as bv8, ((n >> 16) & 0xFF) as bv8, ((n >> 8) & 0xFF) as bv8, (n & 0xFF) as bv8]
  }

  /** The standard incrementing function on 32 bits: appendix B.1 of NIST SP 800-38A. */
  function Inc32(b: Block): Block {
    WithCounter(b, CounterOf(b) + 1)
  }

  /** The counter block after n increments. */
  function CounterBlock(b: Block, n: nat): Block {
    if n == 0 then b else Inc32(CounterBlock(b, n - 1))
  }

  /** C_j = P_j xor E(T_j): section 6.5 of NIST SP 800-38A, byte by byte. */
  function CtrXor(E: BlockFn, b: Block, data: seq<bv8>): (r: seq<bv8>)
    ensures |r| == |data|
  {
    seq(|data|, i requires 0 <= i < |data| => data[i] ^ E(CounterBlock(b, i / 16))[i % 16])
  }

  lemma CtrByte(E: BlockFn, b: Block, data: seq<bv8>, i: nat)
    requires i < |data|
    ensures CtrXor(E, b, data)[i] == E(CounterBlock(b, i / 16))[i % 16] ^ data[i]
  {
  }

  lemma CounterWritten(b: Block, n: bv32)
    ensures CounterOf(WithCounter(b, n)) == n && WithCounter(b, n)[..12] == b[..12]
  {
    var c := WithCounter(b, n);
    CounterBits(n);
    assert c[12] == ((n >> 24) & 0xFF) as bv8 && c[13] == ((n >> 16) & 0xFF) as bv8;
    assert c[14] == ((n >> 8) & 0xFF) as bv8 && c[15] == (n & 0xFF) as bv8;
  }

  lemma CounterBits(n: bv32)
    ensures BigEndian(((n >> 24) & 0xFF) as bv8, ((n >> 16) & 0xFF) as bv8, ((n >> 8) & 0xFF) as bv8,
                      (n & 0xFF) as bv8) == n
  {
  }

  lemma {:induction false} NonceKept(b: Block, n: nat)
    ensures CounterBlock(b, n)[..12] == b[..12]
  {
    if n > 0 {
      NonceKept(b, n - 1);
      CounterWritten(CounterBlock(b, n - 1), CounterOf(CounterBlock(b, n - 1)) + 1);
    }
  }

  /** The last byte counts the units, and a carry goes to the byte before it; the counter has four bytes. */
  lemma Inc32ByBytes(b: Block)
    ensures Inc32(b)
            == if b[15] != 0xFF then b[15 := b[15] + 1]
               else if b[14] != 0xFF then b[14 := b[14] + 1][15 := 0]
               else if b[13] != 0xFF then b[13 := b[13] + 1][14 := 0][15 := 0]
               else b[12 := b[12] + 1][13 := 0][14 := 0][15 := 0]
  {
    hide *;
    Inc32Is(b);
    IncrementedBytes(b[12], b[13], b[14], b[15]);
    assert b == b[..12] + [b[12], b[13], b[14], b[15]];
  }

  lemma Inc32Is(b: Block)
    ensures Inc32(b) == b[..12] + NextBytes(b[12], b[13], b[14], b[15])
  {
    hide BigEndian;
  }

  function NextBytes(p: bv8, q: bv8, r: bv8, s: bv8): (t: seq<bv8>)
    ensures |t| == 4
  {
    var n := BigEndian(p, q, r, s) + 1;
    [((n >> 24) & 0xFF) as bv8, ((n >> 16) & 0xFF) as bv8, ((n >> 8) & 0xFF) as bv8, (n & 0xFF) as bv8]
  }

  lemma IncrementedBytes(p: bv8, q: bv8, r: bv8, s: bv8)
    ensures NextBytes(p, q, r, s)
            == if s != 0xFF then [p, q, r, s + 1]
               else if r != 0xFF then [p, q, r + 1, 0]
               else if q != 0xFF then [p, q + 1, 0, 0]
               else [p + 1, 0, 0, 0]
  {
  }

  /** The loop's local state before byte i: the next counter block, its counter, and the current key stream block. */
  ghost predicate AtByte(E: BlockFn, start: Block, i: nat, nonce: Block, blockNum: bv32, buffer: Block) {
    && nonce == CounterBlock(start, BlockCount(i)) && blockNum == CounterOf(nonce)
    && (i % 16 != 0 ==> buffer == E(CounterBlock(start, i / 16)))
  }

  lemma StayInBlock(E: BlockFn, start: Block, i: nat, nonce: Block, blockNum: bv32, buffer: Block)
    requires AtByte(E, start, i, nonce, blockNum, buffer) && i % 16 != 0
    ensures buffer == E(CounterBlock(start, i / 16)) && AtByte(E, start, i + 1, nonce, blockNum, buffer)
  {
    hide CounterBlock, CounterOf;
    assert BlockCount(i + 1) == BlockCount(i);
    if (i + 1) % 16 != 0 {
      assert (i + 1) / 16 == i / 16;
    }
  }

  lemma StartBlock(E: BlockFn, start: Block, i: nat, nonce: Block, blockNum: bv32, buffer: Block)
    requires AtByte(E, start, i, nonce, blockNum, buffer) && i % 16 == 0
    ensures nonce == CounterBlock(start, i / 16)
    ensures AtByte(E, start, i + 1, WithCounter(nonce, blockNum + 1), blockNum + 1, E(nonce))
  {
    hide CounterOf, WithCounter, CounterBlock;
    var n := i / 16;
    BlockIndex(i);
    var next := WithCounter(nonce, blockNum + 1);
    NextCounter(start, n, nonce, blockNum);
    assert AtByte(E, start, i + 1, next, blockNum + 1, E(nonce)) by {
      hide BlockCount;
    }
  }

  lemma BlockIndex(i: nat)
    requires i % 16 == 0
    ensures BlockCount(i) == i / 16 && BlockCount(i + 1) == i / 16 + 1 && (i + 1) / 16 == i / 16
  {
  }

  lemma NextCounter(b: Block, n: nat, c: Block, k: bv32)
    requires c == CounterBlock(b, n) && k == CounterOf(c)
    ensures CounterBlock(b, n + 1) == WithCounter(c, k + 1) && CounterOf(WithCounter(c, k + 1)) == k + 1
  {
    hide CounterOf, WithCounter;
    CounterWritten(c, k + 1);
  }

  /** The next counter block is encrypted and its counter increased. */
  method NextBlock(E: BlockFn, ghost start: Block, ghost i: nat, nonce: Block, blockNum: bv32, ghost buffer: Block)
    returns (nonce': Block, blockNum': bv32, buffer': Block)
    requires AtByte(E, start, i, nonce, blockNum, buffer) && i % 16 == 0
    ensures buffer' == E(CounterBlock(start, i / 16)) && AtByte(E, start, i + 1, nonce', blockNum', buffer')
  {
    hide *;
    StartBlock(E, start, i, nonce, blockNum, buffer);
    buffer' := E(nonce);
    blockNum' := blockNum + 1;
    nonce' := WithCounter(nonce, blockNum');
  }

  /** Encrypts or decrypts; the output may be the input buffer. */
  method CtrMode(out: array<bv8>, outlen: nat, input: array<bv8>, inlen: nat, ctr: array<bv8>, E: BlockFn)
    returns (ok: bool)
    requires outlen <= out.Length && inlen <= input.Length && ctr.Length == 16 && ctr != out && ctr != input
    modifies out, ctr
    ensures ok <==> inlen != 0 && outlen == inlen
    ensures !ok ==> out[..] == old(out[..]) && ctr[..] == old(ctr[..])
    ensures ok ==> out[..] == CtrXor(E, old(ctr[..]), old(input[..inlen])) + old(out[inlen..])
    ensures ok ==> ctr[..] == CounterBlock(old(ctr[..]), BlockCount(inlen))
  {
    hide *;
    if inlen == 0 || outlen == 0 || outlen != inlen {
      return false;
    }
    ghost var start: Block := ctr[..];
    ghost var data, before := input[..inlen], out[..];
    ghost var stream := CtrXor(E, start, data);
    var nonce: Block := ctr[..];
    var buffer: Block := *;
    var blockNum := CounterOf(nonce);
    var i := 0;
    FirstByte(E, start, buffer);
    OverwriteEnds(before, stream);
    while i < inlen
      modifies out
      invariant 0 <= i <= inlen && AtByte(E, start, i, nonce, blockNum, buffer)
      invariant out[..] == Overwritten(before, stream, i)
    {
      CtrByte(E, start, data, i);
      OverwriteNext(before, stream, i);
      if i % 16 == 0 {
        nonce, blockNum, buffer := NextBlock(E, start, i, nonce, blockNum, buffer);
      } else {
        StayInBlock(E, start, i, nonce, blockNum, buffer);
      }
      assert input[i] == data[i] by {
        assert input == out ==> input[i] == out[..][i] == before[i];
      }
      Put(out, i, buffer[i % 16] ^ input[i]);
      i := i + 1;
    }
    LastBlock(E, start, inlen, nonce, blockNum, buffer);
    WriteCounter(ctr, nonce);
    ok := true;
  }

  lemma FirstByte(E: BlockFn, start: Block, buffer: Block)
    ensures AtByte(E, start, 0, start, CounterOf(start), buffer)
  {
  }

  lemma LastBlock(E: BlockFn, start: Block, n: nat, nonce: Block, blockNum: bv32, buffer: Block)
    requires AtByte(E, start, n, nonce, blockNum, buffer)
    ensures nonce == CounterBlock(start, BlockCount(n)) && nonce[..12] == start[..12]
  {
    NonceKept(start, BlockCount(n));
  }

  /** Only the four counter bytes are written back. */
  method WriteCounter(ctr: array<bv8>, nonce: Block)
    requires ctr.Length == 16 && ctr[..12] == nonce[..12]
    modifies ctr
    ensures ctr[..] == nonce
  {
    assert forall j :: 0 <= j < 12 ==> ctr[j] == ctr[..12][j] == nonce[..12][j] == nonce[j];
    ctr[12], ctr[13], ctr[14], ctr[15] := nonce[12], nonce[13], nonce[14], nonce[15];
  }

  /** The same counter restores the data. */
  lemma CtrRestores(E: BlockFn, b: Block, data: seq<bv8>)
    ensures CtrXor(E, b, CtrXor(E, b, data)) == data
  {
    var once := CtrXor(E, b, data);
    forall i | 0 <= i < |data|
      ensures CtrXor(E, b, once)[i] == data[i]
    {
      XorTwice(data[i], E(CounterBlock(b, i / 16))[i % 16]);
    }
  }

  lemma {:induction false} CounterBlockAdd(b: Block, n: nat, m: nat)
    ensures CounterBlock(b, n + m) == CounterBlock(CounterBlock(b, n), m)
  {
    if m > 0 {
      CounterBlockAdd(b, n, m - 1);
    }
  }

  /** A stream cut at a block boundary into two calls, the second from the counter the first one left. */
  lemma CtrStream(E: BlockFn, b: Block, first: seq<bv8>, second: seq<bv8>)
    requires |first| % 16 == 0
    ensures CtrXor(E, b, first + second)
            == CtrXor(E, b, first) + CtrXor(E, CounterBlock(b, BlockCount(|first|)), second)
    ensures CounterBlock(b, BlockCount(|first + second|))
            == CounterBlock(CounterBlock(b, BlockCount(|first|)), BlockCount(|second|))
  {
    hide CtrXor, CounterBlock;
    var n := |first| / 16;
    assert BlockCount(|first|) == n;
    assert BlockCount(|first + second|) == n + BlockCount(|second|);
    CounterBlockAdd(b, n, BlockCount(|second|));
    var whole, rest := CtrXor(E, b, first + second), CtrXor(E, CounterBlock(b, n), second);
    forall i | 0 <= i < |first|
      ensures whole[i] == CtrXor(E, b, first)[i]
    {
      CtrByte(E, b, first + second, i);
      CtrByte(E, b, first, i);
    }
    forall i | 0 <= i < |second|
      ensures whole[|first| + i] == rest[i]
    {
      SecondPart(E, b, first, second, n, i);
    }
    assert whole == CtrXor(E, b, first) + rest;
  }

  /** Block by block: the first block is encrypted with the counter block itself, and the rest with the next one. */
  lemma CtrByBlocks(E: BlockFn, b: Block, data: seq<bv8>)
    requires |data| >= 16
    ensures CtrXor(E, b, data) == XorBlock(data[..16], E(b)) + CtrXor(E, Inc32(b), data[16..])
  {
    hide CounterBlock, Inc32;
    var first := data[..16];
    assert data == first + data[16..];
    CtrStream(E, b, first, data[16..]);
    FirstCounters(b);
    assert BlockCount(16) == 1;
    forall i | 0 <= i < 16
      ensures CtrXor(E, b, first)[i] == XorBlock(first, E(b))[i]
    {
      CtrByte(E, b, first, i);
      XorOrder(first[i], E(b)[i]);
    }
    assert CtrXor(E, b, first) == XorBlock(first, E(b));
  }

  lemma FirstCounters(b: Block)
    ensures CounterBlock(b, 0) == b && CounterBlock(b, 1) == Inc32(b)
  {
    hide Inc32;
  }

  lemma XorOrder(a: bv8, b: bv8)
    ensures a ^ b == b ^ a
  {
  }

  lemma SecondPart(E: BlockFn, b: Block, first: seq<bv8>, second: seq<bv8>, n: nat, i: nat)
    requires |first| == 16 * n && i < |second|
    ensures CtrXor(E, b, first + second)[|first| + i] == CtrXor(E, CounterBlock(b, n), second)[i]
  {
    hide CtrXor, CounterBlock;
    var j := |first| + i;
    assert j / 16 == n + i / 16 && j % 16 == i % 16;
    CounterBlockAdd(b, n, i / 16);
    CtrByte(E, b, first + second, j);
    CtrByte(E, CounterBlock(b, n), second, i);
    assert (first + second)[j] == second[i];
  }

  /** What n increments add to the counter. */
  function Steps(n: nat): bv32 {
    if n == 0 then 0 else Add(Steps(n - 1), 1)
  }

  lemma AddNothing(x: bv32)
    ensures Add(x, 0) == x
  {
  }

  lemma NextCounterOf(b: Block)
    ensures CounterOf(Inc32(b)) == Add(CounterOf(b), 1)
  {
    CounterWritten(b, CounterOf(b) + 1);
  }

  lemma {:induction false} CounterAt(b: Block, n: nat)
    ensures CounterOf(CounterBlock(b, n)) == Add(CounterOf(b), Steps(n))
  {
    hide CounterOf, Inc32, Add;
    if n == 0 {
      AddNothing(CounterOf(b));
    } else {
      CounterAt(b, n - 1);
      NextCounterOf(CounterBlock(b, n - 1));
      AddAssociates(CounterOf(b), Steps(n - 1), 1);
    }
  }

  lemma {:induction false} StepsAdd(n: nat, m: nat)
    ensures Steps(n + m) == Add(Steps(n), Steps(m))
  {
    hide Add;
    if m == 0 {
      AddNothing(Steps(n));
    } else {
      StepsAdd(n, m - 1);
      AddAssociates(Steps(n), Steps(m - 1), 1);
    }
  }

  /** The word with the low k bits set. */
  function Mask(k: nat): bv32 {
    match k
    case 0 => 0x0 case 1 => 0x1 case 2 => 0x3 case 3 => 0x7
    case 4 => 0xF case 5 => 0x1F case 6 => 0x3F case 7 => 0x7F
    case 8 => 0xFF case 9 => 0x1FF case 10 => 0x3FF case 11 => 0x7FF
    case 12 => 0xFFF case 13 => 0x1FFF case 14 => 0x3FFF case 15 => 0x7FFF
    case 16 => 0xFFFF case 17 => 0x1_FFFF case 18 => 0x3_FFFF case 19 => 0x7_FFFF
    case 20 => 0xF_FFFF case 21 => 0x1F_FFFF case 22 => 0x3F_FFFF case 23 => 0x7F_FFFF
    case 24 => 0xFF_FFFF case 25 => 0x1FF_FFFF case 26 => 0x3FF_FFFF case 27 => 0x7FF_FFFF
    case 28 => 0xFFF_FFFF case 29 => 0x1FFF_FFFF case 30 => 0x3FFF_FFFF case 31 => 0x7FFF_FFFF
    case _ => 0xFFFF_FFFF
  }

  lemma NextMask(k: nat)
    requires k < 32
    ensures Mask(k) < 0x8000_0000 && Mask(k + 1) == Mask(k) + Mask(k) + 1
  {
    if k < 16 {
      if k < 8 {
        if k < 4 {} else {}
      } else {
        if k < 12 {} else {}
      }
    } else {
      if k < 24 {
        if k < 20 {} else {}
      } else {
        if k < 28 {} else {}
      }
    }
  }

  /** None of the bits of m is set in s. */
  predicate Clear(s: bv32, m: bv32) {
    s & m == 0
  }

  lemma DoubledBits(s: bv32, m: bv32)
    requires m < 0x8000_0000
    ensures Clear(Add(s, s), m + m + 1) <==> Clear(s, m)
    ensures !Clear(Add(Add(s, s), 1), m + m + 1)
  {
  }

  lemma ClearDoubled(s: bv32, k: nat)
    requires k < 32
    ensures Clear(Add(s, s), Mask(k + 1)) <==> Clear(s, Mask(k))
    ensures !Clear(Add(Add(s, s), 1), Mask(k + 1))
  {
    hide Clear, Add, Mask;
    NextMask(k);
    DoubledBits(s, Mask(k));
  }

  /** The low k bits of the sum are zero exactly for multiples of 2^k. */
  lemma {:induction false} StepsLow(n: nat, k: nat)
    requires k <= 32
    ensures Clear(Steps(n), Mask(k)) <==> n % Pow2(k) == 0
  {
    hide Add, Clear, Mask;
    if k == 0 {
      FirstMask(Steps(n));
    } else {
      var m := n / 2;
      StepsLow(m, k - 1);
      StepsAdd(m, m);
      ClearDoubled(Steps(m), k - 1);
      HalvedRemainder(n, m, Pow2(k - 1));
    }
  }

  lemma FirstMask(s: bv32)
    ensures Clear(s, Mask(0)) && (Clear(s, Mask(32)) <==> s == 0)
  {
  }

  lemma HalvedRemainder(n: nat, m: nat, p: nat)
    requires m == n / 2 && p > 0
    ensures n % (2 * p) == 0 <==> n % 2 == 0 && m % p == 0
  {
    DivUnique(n, 2 * p, m / p, 2 * (m % p) + n % 2);
  }

  lemma CounterBytes(a: Block, b: Block)
    requires CounterOf(a) == CounterOf(b)
    ensures a[12] == b[12] && a[13] == b[13] && a[14] == b[14] && a[15] == b[15]
  {
    SameBytes(a[12], a[13], a[14], a[15], b[12], b[13], b[14], b[15]);
  }

  lemma SameBytes(a0: bv8, a1: bv8, a2: bv8, a3: bv8, b0: bv8, b1: bv8, b2: bv8, b3: bv8)
    requires BigEndian(a0, a1, a2, a3) == BigEndian(b0, b1, b2, b3)
    ensures a0 == b0 && a1 == b1 && a2 == b2 && a3 == b3
  {
  }

  lemma SameCounter(a: Block, b: Block)
    requires a[..12] == b[..12] && CounterOf(a) == CounterOf(b)
    ensures a == b
  {
    hide CounterOf;
    CounterBytes(a, b);
    assert a == a[..12] + [a[12], a[13], a[14], a[15]];
    assert b == b[..12] + [b[12], b[13], b[14], b[15]];
  }

  /** The counter wraps: two counter blocks of one stream are equal exactly when they are a multiple of 2^32 apart. */
  lemma CounterWraps(b: Block, n: nat, m: nat)
    ensures CounterBlock(b, n + m) == CounterBlock(b, n) <==> m % 0x1_0000_0000 == 0
  {
    hide CounterBlock, CounterOf, Mask, Steps, Pow2, Add, Clear;
    CounterAt(b, n);
    CounterAt(b, n + m);
    StepsAdd(n, m);
    StepsLow(m, 32);
    FirstMask(Steps(m));
    Pow2Is32();
    NonceKept(b, n);
    NonceKept(b, n + m);
    AddAssociates(CounterOf(b), Steps(n), Steps(m));
    NothingAdded(Add(CounterOf(b), Steps(n)), Steps(m));
    if Steps(m) == 0 {
      SameCounter(CounterBlock(b, n + m), CounterBlock(b, n));
    }
  }

  lemma NothingAdded(s: bv32, t: bv32)
    ensures Add(s, t) == s <==> t == 0
  {
  }

  /** Any division into calls that all end on block boundaries, except perhaps the last. */
  function CtrCalls(E: BlockFn, b: Block, chunks: seq<seq<bv8>>): seq<bv8>
    decreases |chunks|
  {
    if chunks == [] then []
    else CtrXor(E, b, chunks[0]) + CtrCalls(E, CounterBlock(b, BlockCount(|chunks[0]|)), chunks[1..])
  }

  /** The counter that the calls leave. */
  function CtrCounter(b: Block, chunks: seq<seq<bv8>>): Block
    decreases |chunks|
  {
    if chunks == [] then b else CtrCounter(CounterBlock(b, BlockCount(|chunks[0]|)), chunks[1..])
  }

  lemma {:induction false} CtrChunks(E: BlockFn, b: Block, chunks: seq<seq<bv8>>)
    requires forall i :: 0 <= i < |chunks| - 1 ==> |chunks[i]| % 16 == 0
    ensures CtrCalls(E, b, chunks) == CtrXor(E, b, Flat(chunks))
    ensures CtrCounter(b, chunks) == CounterBlock(b, BlockCount(|Flat(chunks)|))
    decreases |chunks|
  {
    if |chunks| == 1 {
      var next := CounterBlock(b, BlockCount(|chunks[0]|));
      assert Flat(chunks[1..]) == [] && CtrCalls(E, next, chunks[1..]) == [] && CtrCounter(next, chunks[1..]) == next;
      assert chunks[0] + [] == chunks[0];
    } else if |chunks| > 1 {
      CtrChunks(E, CounterBlock(b, BlockCount(|chunks[0]|)), chunks[1..]);
      CtrStream(E, b, chunks[0], Flat(chunks[1..]));
    }
  }
}
