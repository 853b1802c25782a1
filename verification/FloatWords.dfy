/** A float as one 32-bit word. */
module FloatWords {
  import opened Bits
  import opened Ieee754

  const INF: u32 := 0x7f80_0000
  const SIGN: u32 := 0x8000_0000

  lemma FloatConstants()
    ensures BINARY32.One() == 0x80_0000 && BINARY32.Inf() == INF
  {
    InfinityEncoding(BINARY32);
    Pow2Constants();
  }
}
