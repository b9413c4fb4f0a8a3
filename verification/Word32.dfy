/** 32-bit words: addition, and assembly from bytes. */
module Word32 {

  /** The word of four bytes, the highest first. */
  function BigEndian(a: bv8, b: bv8, c: bv8, d: bv8): bv32 {
    ((a as bv32) << 24) | ((b as bv32) << 16) | ((c as bv32) << 8) | (d as bv32)
  }

  /** Addition modulo 2^32. */
  function Add(a: bv32, b: bv32): bv32 {
    a + b
  }

  lemma AddCommutes(a: bv32, b: bv32)
    ensures Add(a, b) == Add(b, a)
  {
  }

  lemma AddAssociates(a: bv32, b: bv32, c: bv32)
    ensures Add(Add(a, b), c) == Add(a, Add(b, c))
  {
    calc {
      Add(Add(a, b), c);
      Add(a + b, c);
      (a + b) + c;
      { Associative(a, b, c); }
      a + (b + c);
      Add(a, b + c);
      Add(a, Add(b, c));
    }
  }

  lemma Associative(a: bv32, b: bv32, c: bv32)
    ensures (a + b) + c == a + (b + c)
  {
  }
}
