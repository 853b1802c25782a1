/** A double as two 32-bit words. */
module DoubleWords {
  import opened Bits
  import opened Ieee754

  const INF: nat := 0x7ff0_0000_0000_0000
  const SIGN: u32 := 0x8000_0000
  const WORD: int := 0x1_0000_0000

  function Pair(hi: nat, lo: u32): nat {
    hi * 0x1_0000_0000 + lo
  }

  /** The bits below the sign. */
  function Datum(x: (u32, u32)): nat {
    Pair(x.0 % 0x8000_0000, x.1)
  }

  lemma DoubleConstants()
    ensures BINARY64.One() == 0x10_0000_0000_0000 && BINARY64.Inf() == INF
  {
    InfinityEncoding(BINARY64);
    Pow2Constants();
  }
}
