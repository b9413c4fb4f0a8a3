/** Conversion between big-endian bytes and little-endian words. */
module Bytes {
  import opened Words
  import opened Arith
  import opened Bits
  import opened Vli

  type Byte = b: int | 0 <= b < 256

  function Weight(t: nat): (r: nat)
    requires t < 4
    ensures r >= 1
  {
    if t == 0 then 1 else if t == 1 then 0x100 else if t == 2 then 0x1_0000 else 0x100_0000
  }

  /** The byte that contributes at position b (counted from the least significant), if it lies in [lo, |bytes|). */
  function Part(bytes: seq<Byte>, b: nat, lo: nat): (r: nat)
    ensures r < 256
  {
    if lo <= b < |bytes| then bytes[|bytes| - 1 - b] else 0
  }

  /** Word j of the bytes, from the bytes at positions lo and up. */
  function PartialWord(bytes: seq<Byte>, j: nat, lo: nat): (w: Word) {
    Part(bytes, 4 * j, lo) + 0x100 * Part(bytes, 4 * j + 1, lo)
    + 0x1_0000 * Part(bytes, 4 * j + 2, lo) + 0x100_0000 * Part(bytes, 4 * j + 3, lo)
  }

  /** The words of a big-endian byte string. */
  function WordsOf(bytes: seq<Byte>): (s: seq<Word>)
    ensures |s| == (|bytes| + 3) / 4
  {
    seq((|bytes| + 3) / 4, j requires j >= 0 => PartialWord(bytes, j, 0))
  }

  /** The n lowest bytes of words, in big-endian order. */
  function BytesOf(s: seq<Word>, n: nat): (bytes: seq<Byte>)
    requires n <= 4 * |s|
    ensures |bytes| == n
  {
    seq(n, i requires 0 <= i < n => ByteAt(s, n - 1 - i))
  }

  function ByteAt(s: seq<Word>, b: nat): Byte
    requires b / 4 < |s|
  {
    (s[b / 4] / Weight(b % 4)) % 256
  }

  lemma FourBytes(w: Word)
    ensures w % 0x1_0000 == w % 256 + 0x100 * ((w / 0x100) % 256)
    ensures w % 0x100_0000 == w % 256 + 0x100 * ((w / 0x100) % 256) + 0x1_0000 * ((w / 0x1_0000) % 256)
    ensures w == w % 256 + 0x100 * ((w / 0x100) % 256) + 0x1_0000 * ((w / 0x1_0000) % 256)
            + 0x100_0000 * ((w / 0x100_0000) % 256)
  {
    var a := w / 0x100;
    assert w / 0x1_0000 == a / 0x100;
    assert w / 0x100_0000 == a / 0x100 / 0x100;
  }

  lemma PartOfBytes(s: seq<Word>, n: nat, j: nat, t: nat)
    requires n <= 4 * |s| && t < 4 && 4 * j < n
    ensures j < |s| && Part(BytesOf(s, n), 4 * j + t, 0) == if 4 * j + t < n then (s[j] / Weight(t)) % 256 else 0
  {
    var b := 4 * j + t;
    DivUnique(b, 4, j, t);
    if b < n {
      assert BytesOf(s, n)[n - 1 - b] == ByteAt(s, b);
    }
  }

  lemma WordBack(s: seq<Word>, n: nat, j: nat)
    requires n <= 4 * |s| && 4 * j < n
    ensures PartialWord(BytesOf(s, n), j, 0) == if j < n / 4 then s[j] else s[j] % Weight(n % 4)
  {
    hide Part, BytesOf;
    PartOfBytes(s, n, j, 0);
    PartOfBytes(s, n, j, 1);
    PartOfBytes(s, n, j, 2);
    PartOfBytes(s, n, j, 3);
    FourBytes(s[j]);
    if j < n / 4 {
      assert 4 * j + 3 < n;
    } else {
      assert n == 4 * j + n % 4;
    }
  }

  /** Words written as bytes and read back are the same words; of a word written in part the low bytes remain. */
  lemma BytesRoundTrip(s: seq<Word>, n: nat)
    requires n <= 4 * |s|
    ensures forall j :: 0 <= j < n / 4 ==> WordsOf(BytesOf(s, n))[j] == s[j]
    ensures n % 4 != 0 ==> WordsOf(BytesOf(s, n))[n / 4] == s[n / 4] % Weight(n % 4)
  {
    hide PartialWord, BytesOf;
    forall j | 0 <= j < (n + 3) / 4
      ensures WordsOf(BytesOf(s, n))[j] == if j < n / 4 then s[j] else s[j] % Weight(n % 4)
    {
      WordBack(s, n, j);
    }
  }

  lemma WholeRoundTrip(s: seq<Word>)
    ensures WordsOf(BytesOf(s, 4 * |s|)) == s
  {
    hide WordsOf, BytesOf;
    BytesRoundTrip(s, 4 * |s|);
  }

  /** The number a big-endian byte string stands for. */
  function NumberOf(bytes: seq<Byte>): nat {
    Val(WordsOf(bytes))
  }

  /** A big-endian number: nothing is zero, and one more byte at the end is one more digit in base 256. */
  lemma {:induction false} NumberOfNext(bytes: seq<Byte>, b: Byte)
    ensures NumberOf([]) == 0
    ensures NumberOf(bytes + [b]) == 256 * NumberOf(bytes) + b
    decreases |bytes|
  {
    hide NumberOf, Val, WordsOf, PartialWord, Part;
    NumberOfNothing();
    var more := bytes + [b];
    LowestWord(bytes);
    LowestWord(more);
    WordTakesByte(bytes, b);
    if |bytes| < 3 {
      NoFourthByte(bytes);
    } else if |bytes| == 3 {
      assert more[..0] == [];
      NoFourthByte(bytes);
    } else {
      var rest := bytes[..|bytes| - 4];
      NumberOfNext(rest, bytes[|bytes| - 4]);
      assert more[..|more| - 4] == rest + [bytes[|bytes| - 4]];
      FourthByte(bytes);
    }
  }

  lemma NumberOfNothing()
    ensures NumberOf([]) == 0
  {
    ValNone(WordsOf([]));
  }

  /** The last four bytes are the lowest word. */
  lemma LowestWord(bytes: seq<Byte>)
    ensures NumberOf(bytes)
            == PartialWord(bytes, 0, 0)
               + 0x1_0000_0000 * (if |bytes| < 4 then 0 else NumberOf(bytes[..|bytes| - 4]))
  {
    hide PartialWord, Val;
    var w := WordsOf(bytes);
    if |bytes| == 0 {
      ValNone(w);
      NoByte();
    } else {
      ValFirst(w);
      var rest := if |bytes| < 4 then [] else bytes[..|bytes| - 4];
      assert w[1..] == WordsOf(rest) by {
        HigherWords(bytes, rest);
      }
      ValNone([]);
    }
  }

  lemma NoByte()
    ensures PartialWord([], 0, 0) == 0
  {
  }

  lemma HigherWords(bytes: seq<Byte>, rest: seq<Byte>)
    requires |bytes| > 0 && rest == if |bytes| < 4 then [] else bytes[..|bytes| - 4]
    ensures WordsOf(bytes)[1..] == WordsOf(rest)
  {
    hide PartialWord;
    forall j | 0 <= j < |WordsOf(rest)|
      ensures WordsOf(bytes)[j + 1] == WordsOf(rest)[j]
    {
      SameParts(bytes, rest, j);
    }
  }

  lemma SameParts(bytes: seq<Byte>, rest: seq<Byte>, j: nat)
    requires |bytes| >= 4 && rest == bytes[..|bytes| - 4]
    ensures PartialWord(bytes, j + 1, 0) == PartialWord(rest, j, 0)
  {
  }

  lemma WordTakesByte(bytes: seq<Byte>, b: Byte)
    ensures PartialWord(bytes + [b], 0, 0) + 0x1_0000_0000 * Part(bytes, 3, 0) == 256 * PartialWord(bytes, 0, 0) + b
  {
  }

  lemma NoFourthByte(bytes: seq<Byte>)
    requires |bytes| <= 3
    ensures Part(bytes, 3, 0) == 0
  {
  }

  lemma FourthByte(bytes: seq<Byte>)
    requires |bytes| >= 4
    ensures Part(bytes, 3, 0) == bytes[|bytes| - 4]
  {
  }

  lemma PartNext(bytes: seq<Byte>, i: nat, b: nat)
    requires b < |bytes|
    ensures Part(bytes, i, b) == if i == b then bytes[|bytes| - 1 - b] else Part(bytes, i, b + 1)
    ensures i <= b ==> Part(bytes, i, b + 1) == 0
  {
  }

  /** Reading one more byte, at the next lower position. */
  lemma NextByte(bytes: seq<Byte>, b: nat)
    requires b < |bytes|
    ensures PartialWord(bytes, b / 4, b) == PartialWord(bytes, b / 4, b + 1) + bytes[|bytes| - 1 - b] * Weight(b % 4)
  {
    hide Part;
    var j := b / 4;
    PartNext(bytes, 4 * j, b);
    PartNext(bytes, 4 * j + 1, b);
    PartNext(bytes, 4 * j + 2, b);
    PartNext(bytes, 4 * j + 3, b);
  }

  /** The bits of that byte in the word are still clear, so the OR of the code adds it. */
  lemma BitsStillClear(bytes: seq<Byte>, b: nat)
    requires b < |bytes|
    ensures var w := PartialWord(bytes, b / 4, b + 1);
            w % Weight(b % 4) == 0 && (w / Weight(b % 4)) % 256 == 0
  {
    hide Part, Weight;
    var j := b / 4;
    PartNext(bytes, 4 * j, b);
    PartNext(bytes, 4 * j + 1, b);
    PartNext(bytes, 4 * j + 2, b);
    PartNext(bytes, 4 * j + 3, b);
    ClearBelow(Part(bytes, 4 * j + 1, b + 1), Part(bytes, 4 * j + 2, b + 1), Part(bytes, 4 * j + 3, b + 1), b % 4);
  }

  lemma ClearBelow(p1: nat, p2: nat, p3: nat, t: nat)
    requires t < 4 && (t >= 1 ==> p1 == 0) && (t >= 2 ==> p2 == 0) && (t >= 3 ==> p3 == 0)
    ensures var w := 0x100 * p1 + 0x1_0000 * p2 + 0x100_0000 * p3; w % Weight(t) == 0 && (w / Weight(t)) % 256 == 0
  {
    var w := 0x100 * p1 + 0x1_0000 * p2 + 0x100_0000 * p3;
    if t == 1 {
      assert w / 0x100 == 0x100 * p2 + 0x1_0000 * p3;
    } else if t == 2 {
      assert w / 0x1_0000 == 0x100 * p3;
    }
  }

  method VliBytesToNative(native: array<Word>, bytes: array<Byte>, from: nat, numBytes: nat)
    requires from + numBytes <= bytes.Length && (numBytes + 3) / 4 <= native.Length
    modifies native
    ensures native[..(numBytes + 3) / 4] == WordsOf(bytes[from..from + numBytes])
    ensures forall j :: (numBytes + 3) / 4 <= j < native.Length ==> native[j] == old(native[j])
  {
    hide *;
    ghost var s := bytes[from..from + numBytes];
    var n := (numBytes + 3) / 4;
    VliClear(native, n);
    NothingRead(native[..n], s);
    var i := 0;
    while i < numBytes
      invariant 0 <= i <= numBytes
      invariant WordsRead(native[..n], s, numBytes - i)
      invariant forall j :: n <= j < native.Length ==> native[j] == old(native[j])
    {
      var b := numBytes - 1 - i;
      ghost var now := native[..n];
      assert s[|s| - 1 - b] == bytes[from + i];
      ReadNext(now, s, b);
      native[b / 4] := native[b / 4] + bytes[from + i] * Weight(b % 4);
      assert native[..n] == now[b / 4 := native[b / 4]];
      i := i + 1;
    }
    AllRead(native[..n], s);
  }

  /** The words hold the bytes at positions lo and up. */
  ghost predicate WordsRead(words: seq<Word>, bytes: seq<Byte>, lo: nat) {
    |words| == (|bytes| + 3) / 4 && forall j :: 0 <= j < |words| ==> words[j] == PartialWord(bytes, j, lo)
  }

  lemma NothingRead(words: seq<Word>, bytes: seq<Byte>)
    requires |words| == (|bytes| + 3) / 4 && forall j :: 0 <= j < |words| ==> words[j] == 0
    ensures WordsRead(words, bytes, |bytes|)
  {
  }

  lemma AllRead(words: seq<Word>, bytes: seq<Byte>)
    requires WordsRead(words, bytes, 0)
    ensures words == WordsOf(bytes)
  {
    hide PartialWord;
  }

  lemma ReadNext(words: seq<Word>, bytes: seq<Byte>, b: nat)
    requires b < |bytes| && WordsRead(words, bytes, b + 1)
    ensures b / 4 < |words| && 0 <= words[b / 4] + bytes[|bytes| - 1 - b] * Weight(b % 4) < 0x1_0000_0000
    ensures WordsRead(words[b / 4 := words[b / 4] + bytes[|bytes| - 1 - b] * Weight(b % 4)], bytes, b)
  {
    hide PartialWord, Weight;
    NextByte(bytes, b);
    forall j | 0 <= j < |words| && j != b / 4
      ensures PartialWord(bytes, j, b) == PartialWord(bytes, j, b + 1)
    {
      OtherWord(bytes, j, b);
    }
  }

  lemma OtherWord(bytes: seq<Byte>, j: nat, b: nat)
    requires j != b / 4
    ensures PartialWord(bytes, j, b) == PartialWord(bytes, j, b + 1)
  {
    assert 4 * (b / 4) <= b < 4 * (b / 4) + 4;
  }

  method VliNativeToBytes(bytes: array<Byte>, from: nat, numBytes: nat, native: array<Word>)
    requires numBytes <= 4 * native.Length && from + numBytes <= bytes.Length
    modifies bytes
    ensures bytes[from..from + numBytes] == BytesOf(native[..], numBytes)
    ensures forall j :: 0 <= j < from || from + numBytes <= j < bytes.Length ==> bytes[j] == old(bytes[j])
  {
    hide *;
    ghost var s := native[..];
    var i := 0;
    while i < numBytes
      invariant 0 <= i <= numBytes
      invariant bytes[from..from + i] == BytesOf(s, numBytes)[..i]
      invariant forall j :: 0 <= j < from || from + numBytes <= j < bytes.Length ==> bytes[j] == old(bytes[j])
    {
      var b := numBytes - 1 - i;
      ghost var done := bytes[from..from + i];
      ByteOfWord(s, numBytes, i);
      bytes[from + i] := (native[b / 4] / Weight(b % 4)) % 256;
      assert bytes[from..from + i + 1] == done + [bytes[from + i]];
      i := i + 1;
    }
  }

  lemma ByteOfWord(s: seq<Word>, n: nat, i: nat)
    requires i < n <= 4 * |s|
    ensures var b := n - 1 - i;
            BytesOf(s, n)[i] == (s[b / 4] / Weight(b % 4)) % 256
  {
    assert BytesOf(s, n)[i] == ByteAt(s, n - 1 - i);
  }
}
