/** openlibm/src/e_sqrtf.c: the one-word bit-by-bit square root. */
module SqrtFloat {
  import opened Bits
  import opened Ieee754
  import opened FloatWords
  import opened SquareRoot

  /** Lines 46-47. */
  method ShiftSubnormal(x: u32) returns (ix: i32, m: i32)
    requires 0 < x < 0x0080_0000
    ensures 0x0080_0000 <= ix < 0x0100_0000 && -22 <= m <= 0
    ensures Normalized(BINARY32, Mag(BINARY32, x), ix, m)
  {
    ix, m := x, 0;
    var i := 0;
    while (ix / 0x0080_0000) % 2 == 0
      invariant 0 <= i <= 23 && 0 < ix < 0x0100_0000 && ix == Scale(x, i)
      invariant i == 0 ==> ix < 0x0080_0000
      decreases 0x0100_0000 - ix
    {
      ShiftCount(x, i);
      ix := ix * 2;
      i := i + 1;
    }
    m := m - (i - 1);
    SubnormalWord(x, i);
  }

  lemma ShiftCount(x: nat, i: nat)
    requires 0 < x && Scale(x, i) < 0x0080_0000
    ensures i < 23
  {
    if i >= 23 {
      ScaleAtLeast(x, i, 23);
      Pow2Constants();
    }
  }

  /** Line 50. */
  method ImplicitBit(x: i32, ghost sig: nat) returns (ix: i32)
    requires 0x0080_0000 <= sig < 0x0100_0000 && sig % 0x0080_0000 == x % 0x0080_0000
    ensures ix == sig
  {
    OrDisjoint(0x0080_0000, x % 0x0080_0000, 23) by { Pow2Constants(); }
    ix := Or(0x0080_0000, x % 0x0080_0000);
  }

  lemma NormalWord(x: nat)
    requires 0x0080_0000 <= x < INF
    ensures Normalized(BINARY32, Mag(BINARY32, x), 0x0080_0000 + x % 0x0080_0000, x / 0x0080_0000)
  {
    assert BINARY32.One() == 0x0080_0000 by { Pow2Constants(); }
    Fields(BINARY32, x, x / 0x0080_0000, x % 0x0080_0000);
    NormalFields(BINARY32, x);
  }

  lemma SubnormalWord(x: nat, i: nat)
    requires 0 < x < 0x0080_0000 <= Scale(x, i) < 0x0100_0000
    ensures i <= 23 && Normalized(BINARY32, Mag(BINARY32, x), Scale(x, i), 1 - i)
  {
    assert BINARY32.One() == 0x0080_0000 by { Pow2Constants(); }
    Fields(BINARY32, x, 0, x);
    SubnormalShift(BINARY32, x, i);
  }

  /** The digit loop: 25 bits of the root of x * 2^25, with s == 2 * q throughout. */
  method RootBits(x: i32) returns (q: i32, ix: i32)
    requires 0x0080_0000 <= x < 0x0200_0000
    ensures 0 <= q <= 0x0200_0000 && 0 <= ix
    ensures DigitState(q, ix) == Run(2 * x, 24, 25)
  {
    var s: i32, r: i32 := 0, 0x0100_0000;
    ix := x + x;
    q := 0;
    ghost var k := 0;
    Pow2Constants();
    while r != 0
      invariant 0 <= k <= 25 && 0 <= q <= 0x0200_0000 && 0 <= ix && s == 2 * q
      invariant r == if k <= 24 then Pow2(24 - k) else 0
      invariant DigitState(q, ix) == Run(2 * x, 24, k)
      decreases r
    {
      RunRange(2 * x, 24, k);
      Pow2Halves(24 - k);
      s, q, ix := Step(s, q, ix, r);
      r := r / 2;
      k := k + 1;
    }
  }

  /** The body of the loop is one step of the integer recurrence. */
  method Step(s0: i32, q0: i32, x: i32, r: i32) returns (s: i32, q: i32, ix: i32)
    requires 0 <= q0 && q0 + r <= 0x0200_0000 && s0 == 2 * q0 && 1 <= r && 0 <= x < 0x1000_0000 && x < 4 * q0 + 4 * r
    ensures q == NextRoot(q0, x, r) && ix == NextRem(q0, x, r) && s == 2 * q && 0 <= q && 0 <= ix
  {
    s, q, ix := s0, q0, x;
    var t: i32 := s + r;
    if t <= ix {
      s := t + r;
      ix := ix - t;
      q := q + r;
    }
    ix := ix + ix;
  }

  /** The loop's result is the exact integer root with its remainder. */
  lemma RootBitsExact(x: nat)
    requires 0x0080_0000 <= x < 0x0200_0000
    ensures AllDigits(x * 0x0200_0000, Run(2 * x, 24, 25).root, Run(2 * x, 24, 25).rem)
  {
    Pow2Constants();
    FirstDigit(BINARY32, x);
    RunDigits(x * 0x0200_0000, 2 * x, 24, 25);
  }

  method Normalise(x: u32) returns (ix: i32, m: i32)
    requires 0 < x < INF
    ensures 0x0080_0000 <= ix < 0x0100_0000 && -22 <= m <= 254
    ensures Normalized(BINARY32, Mag(BINARY32, x), ix, m)
  {
    ix, m := x, x / 0x0080_0000;
    ghost var sig: nat := 0x0080_0000 + x % 0x0080_0000;
    if m == 0 {
      ix, m := ShiftSubnormal(x);
      sig := ix;
    } else {
      NormalWord(x);
    }
    ix := ImplicitBit(ix, sig);
  }

  /** Final rounding, driven by the probes one - tiny >= one and one + tiny > one, and packing. */
  method RoundAndPack(q0: i32, rem: i32, m: i32, mode: Rounding) returns (w: u32)
    requires 0 <= q0 <= 0x0200_0000 && -75 <= m <= 63
    ensures w == (m + 126) * 0x0080_0000 + RoundBit(mode, q0, rem != 0)
  {
    var q := q0;
    if rem != 0 {
      if mode != Downward {
        if mode == Upward { q := q + 2; } else { q := q + q % 2; }
      }
    }
    var ix := q / 2 + 0x3f00_0000;
    w := ix + m * 0x0080_0000;
  }

  lemma FloatResult(mode: Rounding, mag: nat, m0: nat, e: int, x: nat, m: int, q: nat, rem: nat, z: nat)
    requires Normalized(BINARY32, mag, m0, e) && e <= 254
    requires m == (e - 127) / 2 && x == (if (e - 127) % 2 == 1 then 2 * m0 else m0)
    requires AllDigits(x * 0x0200_0000, q, rem)
    requires z == (m + 126) * 0x0080_0000 + RoundBit(mode, q, rem != 0)
    ensures IsRoot(BINARY32, mode, mag, z)
  {
    Pow2Constants();
    RootResult(BINARY32, mode, mag, m0, e, x, m, q, rem, z);
  }

  /** The path taken by positive finite arguments. */
  method SqrtfPositive(x: u32, mode: Rounding) returns (w: u32)
    requires 0 < x < INF
    ensures IsRoot(BINARY32, mode, Mag(BINARY32, x), w)
  {
    var ix: i32, m: i32, q: i32, rem: i32;
    ix, m := Normalise(x);
    ghost var m0, e := ix, m;
    m := m - 127;                      // unbias
    if m % 2 == 1 { ix := ix + ix; }   // odd m: double x to make it even
    m := m / 2;
    q, rem := RootBits(ix);
    RootBitsExact(ix);
    w := RoundAndPack(q, rem, m, mode);
    FloatResult(mode, Mag(BINARY32, x), m0, e, ix, m, q, rem, w);
  }

  lemma Classes(x: u32)
    ensures (x / 0x0080_0000) % 0x100 == 0xff <==> x % 0x8000_0000 >= INF
    ensures Signed32(x) <= 0 <==> x == 0 || x >= 0x8000_0000
  {
  }

  /** All arguments: NaN exactly for NaN and negative non-zero numbers; zeros and +inf unchanged. */
  method Sqrtf(x: u32, mode: Rounding) returns (z: Returned<u32>)
    ensures z == NaN <==> x % 0x8000_0000 > INF || x > 0x8000_0000
    ensures x % 0x8000_0000 == 0 || x == INF ==> z == Number(x)
    ensures 0 < x < INF ==> z.Number? && IsRoot(BINARY32, mode, Mag(BINARY32, x), z.bits)
  {
    var ix: i32 := Signed32(x);
    Classes(x);

    // Inf and NaN: x*x+x
    if (x / 0x0080_0000) % 0x100 == 0xff {
      if x == INF { return Number(x); }
      return NaN;
    }
    // zero and negative numbers
    if ix <= 0 {
      if x % 0x8000_0000 == 0 { return Number(x); }
      return NaN;
    }
    var w := SqrtfPositive(x, mode);
    z := Number(w);
  }
}
