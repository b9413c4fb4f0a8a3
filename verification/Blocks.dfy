/** Sixteen-byte blocks and block functions. */
module Blocks {
  type Block = s: seq<bv8> | |s| == 16 witness [0, 0, 0, 0, 0, 0, 0, 0, 0, 0, 0, 0, 0, 0, 0, 0]

  /** A block cipher under a fixed key schedule: any function on blocks. */
  type BlockFn = Block -> Block

  function ZeroBlock(): Block {
    seq(16, _ => 0)
  }

  function XorBlock(a: Block, b: Block): Block {
    seq(16, i requires 0 <= i < 16 => a[i] ^ b[i])
  }

  lemma XorFromZero(b: Block)
    ensures XorBlock(ZeroBlock(), b) == b
  {
  }

  /** The number of blocks that n bytes take up. */
  function BlockCount(n: nat): nat {
    (n + 15) / 16
  }

  /** The data of several calls, one after another. */
  function Flat(chunks: seq<seq<bv8>>): seq<bv8> {
    if chunks == [] then [] else chunks[0] + Flat(chunks[1..])
  }

  lemma {:induction false} FlatSnoc(chunks: seq<seq<bv8>>, d: seq<bv8>)
    ensures Flat(chunks + [d]) == Flat(chunks) + d
  {
    if chunks == [] {
      assert Flat([d]) == d + Flat([]) == d;
    } else {
      assert (chunks + [d])[1..] == chunks[1..] + [d];
      FlatSnoc(chunks[1..], d);
    }
  }

  lemma XorTwice(a: bv8, b: bv8)
    ensures (a ^ b) ^ b == a
  {
  }

  /** tc_aes_encrypt(out, in, sched) for an arbitrary cipher; out may be in. */
  method Encrypt(out: array<bv8>, input: array<bv8>, E: BlockFn)
    requires out.Length == 16 && input.Length == 16
    modifies out
    ensures out[..] == E(old(input[..]))
  {
    var b := E(input[..]);
    var i := 0;
    while i < 16
      invariant 0 <= i <= 16
      invariant forall j :: 0 <= j < i ==> out[j] == b[j]
    {
      out[i] := b[i];
      i := i + 1;
    }
  }
}
