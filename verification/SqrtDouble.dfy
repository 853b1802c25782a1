/** openlibm/src/e_sqrt.c: the bit-by-bit square root over two 32-bit words. */
module SqrtDouble {
  import opened Bits
  import opened Ieee754
  import opened DoubleWords
  import opened SquareRoot
  import opened WordPairs

  /** The datum of a word pair without its sign bit. */
  lemma PairIsJoin(hi: nat, lo: u32)
    ensures Pair(hi, lo) == Join(32, hi, lo) && Pow2(32) == 0x1_0000_0000
  {
    Pow2Constants();
  }

  // ---- normalisation ----

  /** `x << n` on a 32-bit word. */
  function ShiftLeft(x: u32, n: nat): u32 {
    Scale(x, n) % 0x1_0000_0000
  }

  /** `x >> n` on a 32-bit word.  The source reaches n == 32, which C leaves undefined:
      `keeps` says whether the machine then returns x (it shifts by n % 32) or 0. */
  function ShiftRight(x: u32, n: nat, keeps: bool): (y: nat)
    ensures y <= x
  {
    if n >= 32 then (if keeps then x else 0)
    else ShrAtMost(x, n); Shr(x, n)
  }

  lemma ShiftWords(hi: nat, lo: u32, n: nat)
    requires n <= 32
    ensures Or(Scale(hi, n), Shr(lo, 32 - n)) == Scale(hi, n) + Shr(lo, 32 - n)
    ensures Shr(lo, 32 - n) < Pow2(n)
    ensures Pair(Or(Scale(hi, n), Shr(lo, 32 - n)), ShiftLeft(lo, n)) == Scale(Pair(hi, lo), n)
  {
    PairIsJoin(hi, lo);
    PairIsJoin(Or(Scale(hi, n), Shr(lo, 32 - n)), ShiftLeft(lo, n));
    ShiftPair(32, hi, lo, n);
  }

  /** One pass of the loop that fills an empty high word. */
  lemma FillStep(lo: u32)
    ensures Shr(lo, 11) < 0x20_0000 && ShiftLeft(lo, 21) % 0x20_0000 == 0
    ensures Pair(Or(0, Shr(lo, 11)), ShiftLeft(lo, 21)) == Scale(Pair(0, lo), 21)
  {
    Pow2Constants();
    assert Scale(0, 21) == 0 by { ScaleIsProduct(0, 21); }
    ShiftWords(0, lo, 21);
    ScaleIsProduct(lo, 21);
  }

  /** Lines 118-121. */
  method FillHighWord(hi: u32, lo: u32) returns (ix0: i32, ix1: u32, m: i32)
    requires hi < 0x10_0000 && Pair(hi, lo) > 0
    ensures 0 < ix0 < 0x20_0000 && -52 <= m <= 0
    ensures Pair(ix0, ix1) == Scale(Pair(hi, lo), -m)
    ensures ix0 >= 0x10_0000 ==> ix1 % 0x20_0000 == 0
  {
    ix0, ix1, m := hi, lo, 0;
    ghost var v := Pair(hi, lo);
    while ix0 == 0
      invariant -52 <= m <= 0 && 0 <= ix0 < 0x20_0000
      invariant Pair(ix0, ix1) == Scale(v, -m)
      invariant ix0 >= 0x10_0000 ==> ix1 % 0x20_0000 == 0
      decreases 53 + m
    {
      FillStep(ix1);
      ScaleAdd(v, -m, 21);
      ShiftCount(v, -m, 32);
      m := m - 21;
      ix0 := Or(ix0, Shr(ix1, 11));
      ix1 := ShiftLeft(ix1, 21);
    }
  }

  lemma ShiftCount(v: nat, s: nat, k: nat)
    requires v >= 1 && (if k == 20 then Scale(v, s) < 0x10_0000 else k == 32 && Scale(v, s) < 0x1_0000_0000)
    ensures s < k
  {
    if s >= k {
      ScaleAtLeast(v, s, k);
      Pow2Constants();
    }
  }

  /** Line 122. */
  method CountShift(hi: i32) returns (ix0: i32, i: i32)
    requires 0 < hi < 0x20_0000
    ensures 0x10_0000 <= ix0 < 0x20_0000 && 0 <= i <= 20 && ix0 == Scale(hi, i)
    ensures i == 0 ==> hi >= 0x10_0000
  {
    ix0, i := hi, 0;
    while (ix0 / 0x10_0000) % 2 == 0
      invariant 0 <= i <= 20 && 0 < ix0 < 0x20_0000 && ix0 == Scale(hi, i)
      decreases 21 - i
    {
      ShiftCount(hi, i, 20);
      ix0 := ix0 * 2;
      i := i + 1;
    }
  }

  lemma JoinShifted(a: nat, ix1: u32, i: nat)
    requires 1 <= i <= 20 && 0x10_0000 <= Scale(a, i) < 0x20_0000
    ensures var high := Or(Scale(a, i), Shr(ix1, 32 - i));
            0x10_0000 <= high < 0x20_0000 && Pair(high, ShiftLeft(ix1, i)) == Scale(Pair(a, ix1), i)
  {
    ShiftWords(a, ix1, i);
    ScaleIsPow2(21, i);
    ScaleGap(a, Pow2(21 - i), i, Shr(ix1, 32 - i));
  }

  lemma ScaleIsPow2(k: nat, i: nat)
    requires i <= k
    ensures Scale(Pow2(k - i), i) == Pow2(k)
    ensures k == 21 ==> Pow2(k) == 0x20_0000
  {
    ScaleIsProduct(Pow2(k - i), i);
    Pow2Add(k - i, i);
    Pow2Constants();
  }

  lemma JoinUnshifted(a: nat, ix1: u32, c: nat)
    requires 0x10_0000 <= a < 0x20_0000 && ix1 % 0x20_0000 == 0 && (c == 0 || c == ix1)
    ensures Or(a, c) < 0x1_0000_0000 && 0x10_0000 + Or(a, c) % 0x10_0000 == a
  {
    Pow2Constants();
    ClearBits(ix1);
    OrBound(a, c, 32);
    OrKeepsLow(a, c, 20);
    UnderImplicitBit(a, Or(a, c));
  }

  lemma ClearBits(w: nat)
    requires w % 0x20_0000 == 0
    ensures w % 0x10_0000 == 0
  {
    DivModUnique(w, 0x10_0000, 2 * (w / 0x20_0000), 0);
  }

  lemma UnderImplicitBit(a: nat, v: nat)
    requires 0x10_0000 <= a < 0x20_0000 && v % 0x10_0000 == a % 0x10_0000
    ensures 0x10_0000 + v % 0x10_0000 == a
  {
  }

  /** Lines 124-125 and the masking of line 128.
      For i == 0 the junk that a shift by 32 may leave in bits 21..31 is masked off. */
  lemma JoinWords(a: nat, ix1: u32, i: nat, keeps: bool)
    requires i <= 20 && 0x10_0000 <= Scale(a, i) < 0x20_0000
    requires i == 0 ==> ix1 % 0x20_0000 == 0
    ensures var high := Or(Scale(a, i), ShiftRight(ix1, 32 - i, keeps));
            && high < 0x1_0000_0000
            && Pair(0x10_0000 + high % 0x10_0000, ShiftLeft(ix1, i)) == Scale(Pair(a, ix1), i)
  {
    if i == 0 {
      JoinUnshifted(a, ix1, ShiftRight(ix1, 32, keeps));
    } else {
      assert ShiftRight(ix1, 32 - i, keeps) == Shr(ix1, 32 - i);
      JoinShifted(a, ix1, i);
    }
  }

  lemma ImplicitBit(x: int)
    ensures Or(0x10_0000, x % 0x10_0000) == 0x10_0000 + x % 0x10_0000
  {
    Pow2Constants();
    OrDisjoint(0x10_0000, x % 0x10_0000, 20);
  }

  lemma SignedLow(w: u32)
    ensures Signed32(w) % 0x10_0000 == w % 0x10_0000
  {
  }

  /** The subnormal branch.  The significand and exponent do not depend on `keeps`. */
  method ShiftSubnormal(hi: u32, lo: u32, keeps: bool) returns (ix0: i32, ix1: u32, m: i32)
    requires hi < 0x10_0000 && Pair(hi, lo) > 0
    ensures -51 <= m <= 0
    ensures Normalized(BINARY64, Mag(BINARY64, Pair(hi, lo)), Pair(0x10_0000 + ix0 % 0x10_0000, ix1), m)
  {
    ix0, ix1, m := FillHighWord(hi, lo);
    ghost var s, w := -m, Pair(ix0, ix1);
    var i: i32;
    ghost var a := ix0;
    ix0, i := CountShift(ix0);
    m := m - (i - 1);
    JoinWords(a, ix1, i, keeps);
    var high: u32 := Or(ix0, ShiftRight(ix1, 32 - i, keeps));
    SignedLow(high);
    ix0 := Signed32(high);
    ix1 := ShiftLeft(ix1, i);
    SubnormalPair(hi, lo, w, s, i, Pair(0x10_0000 + ix0 % 0x10_0000, ix1));
  }

  lemma SubnormalPair(hi: u32, lo: u32, w: nat, s: nat, i: nat, sig: nat)
    requires hi < 0x10_0000 && Pair(hi, lo) > 0 && w == Scale(Pair(hi, lo), s) && sig == Scale(w, i)
    requires 0x10_0000_0000_0000 <= sig < 0x20_0000_0000_0000
    ensures s + i <= 52 && Normalized(BINARY64, Mag(BINARY64, Pair(hi, lo)), sig, 1 - s - i)
  {
    assert BINARY64.One() == 0x10_0000_0000_0000 by { DoubleConstants(); }
    ScaleAdd(Pair(hi, lo), s, i);
    Fields(BINARY64, Pair(hi, lo), 0, Pair(hi, lo));
    SubnormalShift(BINARY64, Pair(hi, lo), s + i);
  }

  /** A normal argument keeps its own fields. */
  lemma NormalWords(hi: u32, lo: u32)
    requires 0x10_0000 <= hi && Pair(hi, lo) < INF
    ensures Normalized(BINARY64, Mag(BINARY64, Pair(hi, lo)), Pair(0x10_0000 + hi % 0x10_0000, lo), hi / 0x10_0000)
  {
    DoubleConstants();
    Fields(BINARY64, Pair(hi, lo), hi / 0x10_0000, Pair(hi % 0x10_0000, lo));
    NormalFields(BINARY64, Pair(hi, lo));
  }

  method Normalise(hi: u32, lo: u32, keeps: bool) returns (ix0: i32, ix1: u32, m: i32)
    requires 0 < Pair(hi, lo) < INF
    ensures 0x10_0000 <= ix0 < 0x20_0000 && -51 <= m <= 2046
    ensures Normalized(BINARY64, Mag(BINARY64, Pair(hi, lo)), Pair(ix0, ix1), m)
  {
    ix0, ix1, m := hi, lo, hi / 0x10_0000;
    if m == 0 {
      ix0, ix1, m := ShiftSubnormal(hi, lo, keeps);
    } else {
      NormalWords(hi, lo);
    }
    ImplicitBit(ix0);
    ix0 := Or(0x10_0000, ix0 % 0x10_0000);
  }

  // ---- the digit loops ----

  /** Lines 148-149: doubling the pair. */
  lemma DoublePairWords(ix0: nat, ix1: u32)
    ensures Pair(ix0 + (ix0 + ix1 / 0x8000_0000), (ix1 + ix1) % 0x1_0000_0000) == 2 * Pair(ix0, ix1)
  {
  }

  /** The body of the first loop, which compares high words only, is one step of the integer
      recurrence at weight r * 2^32. */
  method HighStep(q0: i32, s: i32, x0: i32, x1: u32, r: i32) returns (q: i32, s0: i32, ix0: i32, ix1: u32)
    requires 0 <= q0 && 1 <= r && q0 + 2 * r <= 0x40_0000 && s == 2 * q0 && 0 <= x0 < 0x100_0000
    ensures q0 <= q <= q0 + r && s0 == 2 * q && 0 <= ix0
    ensures Pair(q, 0) == NextRoot(Pair(q0, 0), Pair(x0, x1), r * 0x1_0000_0000)
    ensures Pair(ix0, ix1) == NextRem(Pair(q0, 0), Pair(x0, x1), r * 0x1_0000_0000)
  {
    q, s0, ix0, ix1 := q0, s, x0, x1;
    var t: i32 := s0 + r;
    if t <= ix0 {
      s0 := t + r;
      ix0 := ix0 - t;
      q := q + r;
    }
    DoublePairWords(ix0, ix1);
    ix0 := ix0 + (ix0 + ix1 / 0x8000_0000);
    ix1 := (ix1 + ix1) % 0x1_0000_0000;
  }

  lemma HighPass(x: nat, k: nat, r: nat, q: nat, ix0: nat, ix1: u32)
    requires k <= 21 && r == Pow2(21 - k) && x < 0x80_0000_0000_0000
    requires DigitState(Pair(q, 0), Pair(ix0, ix1)) == Run(x, 53, k)
    ensures ix0 < 0x100_0000 && q + 2 * r <= 0x40_0000
    ensures var w := r * 0x1_0000_0000;
            Run(x, 53, k + 1)
            == DigitState(NextRoot(Pair(q, 0), Pair(ix0, ix1), w), NextRem(Pair(q, 0), Pair(ix0, ix1), w))
    ensures r / 2 == if k < 21 then Pow2(20 - k) else 0
  {
    Pow2Constants();
    RunRange(x, 53, k);
    Pow2Halves(21 - k);
    Pow2Add(21 - k, 32);
  }

  lemma HighStart(x: nat, x0: nat, x1: u32, k: nat)
    requires x == Pair(x0, x1) && k == 0
    ensures Pow2(21 - k) == 0x20_0000 && Run(x, 53, k) == DigitState(Pair(0, 0), Pair(x0, x1))
  {
    Pow2Constants();
  }

  /** First loop: the 22 high bits of the root. */
  method HighBits(x0: i32, x1: u32, ghost x: nat) returns (q: i32, s0: i32, ix0: i32, ix1: u32, ghost k: nat)
    requires 0 <= x0 && x == Pair(x0, x1) && x < 0x80_0000_0000_0000
    ensures 0 <= q < 0x40_0000 && s0 == 2 * q && 0 <= ix0
    ensures k == 22 && DigitState(Pair(q, 0), Pair(ix0, ix1)) == Run(x, 53, k)
  {
    var r: i32 := 0x20_0000;
    ix0, ix1, q, s0 := x0, x1, 0, 0;
    k := 0;
    HighStart(x, x0, x1, k);
    while r != 0
      invariant 0 <= k <= 22 && 0 <= q < 0x40_0000 && s0 == 2 * q && 0 <= ix0
      invariant r == if k <= 21 then Pow2(21 - k) else 0
      invariant DigitState(Pair(q, 0), Pair(ix0, ix1)) == Run(x, 53, k)
      decreases r
    {
      HighPass(x, k, r, q, ix0, ix1);
      q, s0, ix0, ix1 := HighStep(q, s0, ix0, ix1, r);
      r := r / 2;
      k := k + 1;
    }
  }

  /** The room left in the low word of s = 2 * root while bit r is tested. */
  ghost predicate LowRoom(s1: nat, r: nat) {
    r == 0 || (r == 0x8000_0000 && s1 == 0) || (r < 0x8000_0000 && s1 + 4 * r <= 0x1_0000_0000)
  }

  /** Accepting bit r: s += 2r with the carry out of s1, remainder -= s + r with the borrow. */
  method Accept(s: i32, s1: u32, x0: i32, x1: u32, r: u32) returns (s0: i32, s1': u32, ix0: i32, ix1: u32)
    requires 0 <= s < 0x80_0000 && 0 <= x0 && r >= 1 && LowRoom(s1, r)
    requires Pair(s, s1) + r <= Pair(x0, x1)
    ensures 0 <= s0 <= s + 1 && 0 <= ix0 <= x0
    ensures Pair(s0, s1') == Pair(s, s1) + 2 * r && (r >= 2 ==> LowRoom(s1', r / 2))
    ensures Pair(ix0, ix1) == Pair(x0, x1) - Pair(s, s1) - r
  {
    var t1: u32 := s1 + r;
    s0, ix0, ix1 := s, x0, x1;
    s1' := (t1 + r) % 0x1_0000_0000;
    if t1 / 0x8000_0000 == 1 && s1' / 0x8000_0000 == 0 { s0 := s0 + 1; }
    ix0 := ix0 - s;
    if ix1 < t1 { ix0 := ix0 - 1; }
    ix1 := (ix1 - t1) % 0x1_0000_0000;
  }

  /** The body of the second loop, on word pairs, is one step of the integer recurrence. */
  method LowStep(q: i32, p1: u32, s: i32, sLow: u32, x0: i32, x1: u32, r: u32)
    returns (q1: u32, s0: i32, s1: u32, ix0: i32, ix1: u32)
    requires 0 <= q < 0x40_0000 && 0 <= x0 < 0x100_0000 && 1 <= r && p1 + 2 * r <= 0x1_0000_0000
    requires 0 <= s && Pair(s, sLow) == 2 * Pair(q, p1) && LowRoom(sLow, r)
    ensures Pair(q, q1) == NextRoot(Pair(q, p1), Pair(x0, x1), r) && p1 <= q1 <= p1 + r
    ensures 0 <= s0 && Pair(s0, s1) == 2 * Pair(q, q1) && (r >= 2 ==> LowRoom(s1, r / 2))
    ensures 0 <= ix0 && Pair(ix0, ix1) == NextRem(Pair(q, p1), Pair(x0, x1), r)
  {
    q1, s0, s1, ix0, ix1 := p1, s, sLow, x0, x1;
    if s0 < ix0 || (s0 == ix0 && s1 + r <= ix1) {
      s0, s1, ix0, ix1 := Accept(s0, s1, ix0, ix1, r);
      q1 := q1 + r;
    }
    DoublePairWords(ix0, ix1);
    ix0 := ix0 + (ix0 + ix1 / 0x8000_0000);
    ix1 := (ix1 + ix1) % 0x1_0000_0000;
  }

  /** Second loop: the 32 low bits of the root, with two-word comparison, carry and borrow. */
  method LowBits(q: i32, sHigh: i32, x0: i32, x1: u32, ghost x: nat, ghost k0: nat)
    returns (q1: u32, ix0: i32, ix1: u32, ghost k: nat)
    requires 0 <= q < 0x40_0000 && sHigh == 2 * q && 0 <= x0 && x < 0x80_0000_0000_0000
    requires k0 == 22 && DigitState(Pair(q, 0), Pair(x0, x1)) == Run(x, 53, k0)
    ensures 0 <= ix0 && k == 54 && DigitState(Pair(q, q1), Pair(ix0, ix1)) == Run(x, 53, k)
  {
    var s0: i32, s1: u32, r: u32 := sHigh, 0, 0x8000_0000;
    ix0, ix1, q1 := x0, x1, 0;
    k := k0;
    Pow2Constants();
    while r != 0
      invariant 22 <= k <= 54 && 0 <= ix0 && 0 <= s0 && LowRoom(s1, r) && q1 + 2 * r <= 0x1_0000_0000
      invariant r == if k <= 53 then Pow2(53 - k) else 0
      invariant Pair(s0, s1) == 2 * Pair(q, q1)
      invariant DigitState(Pair(q, q1), Pair(ix0, ix1)) == Run(x, 53, k)
      decreases r
    {
      RunRange(x, 53, k);
      Pow2Halves(53 - k);
      q1, s0, s1, ix0, ix1 := LowStep(q, q1, s0, s1, ix0, ix1, r);
      r := r / 2;
      k := k + 1;
    }
  }

  // ---- rounding and packing ----

  /** Final rounding with the carry from q1 into q; `rem` is the remaining pair. */
  method RoundWords(q0: i32, p1: u32, x0: i32, x1: u32, mode: Rounding) returns (q: i32, q1: u32)
    requires 0 <= q0 < 0x40_0000 && 0 <= x0
    ensures q0 <= q <= q0 + 1
    ensures Pair(q, q1) / 2 == RoundBit(mode, Pair(q0, p1), Pair(x0, x1) != 0)
  {
    q, q1 := q0, p1;
    var exact := BothZero(x0, x1);
    if !exact {
      q, q1 := RoundInexact(q0, p1, mode);
    }
  }

  method RoundInexact(q0: i32, p1: u32, mode: Rounding) returns (q: i32, q1: u32)
    requires 0 <= q0 < 0x40_0000
    ensures q0 <= q <= q0 + 1
    ensures Pair(q, q1) / 2 == RoundBit(mode, Pair(q0, p1), true)
  {
    q, q1 := q0, p1;
    if mode != Downward {              // one - tiny >= one
      if q1 == 0xffff_ffff {
        q1 := 0;
        q := q + 1;
      } else if mode == Upward {       // one + tiny > one
        if q1 == 0xffff_fffe { q := q + 1; }
        q1 := (q1 + 2) % 0x1_0000_0000;
      } else {
        q1 := q1 + q1 % 2;
      }
    }
    RoundedHalf(mode, q0, p1, Pair(q, q1));
  }

  lemma PairParity(hi: nat, lo: u32)
    ensures Pair(hi, lo) % 2 == lo % 2
  {
    assert Pair(hi, lo) == 2 * (hi * 0x8000_0000) + lo;
  }

  /** Adding one or two to an odd root gives the same half. */
  lemma RoundedHalf(mode: Rounding, hi: nat, lo: u32, r: nat)
    requires mode == Downward ==> r == Pair(hi, lo)
    requires mode == Upward ==> r == Pair(hi, lo) + 2 || (lo == 0xffff_ffff && r == Pair(hi, lo) + 1)
    requires mode == Nearest ==> r == Pair(hi, lo) + lo % 2
    ensures r / 2 == RoundBit(mode, Pair(hi, lo), true)
  {
    PairParity(hi, lo);
    HalfOfNext(mode, Pair(hi, lo), r);
  }

  lemma HalfOfNext(mode: Rounding, p: nat, r: nat)
    requires mode == Downward ==> r == p
    requires mode == Upward ==> r == p + 2 || (p % 2 == 1 && r == p + 1)
    requires mode == Nearest ==> r == p + p % 2
    ensures r / 2 == RoundBit(mode, p, true)
  {
  }

  /** Packing, with the carry from the significand into the exponent. */
  method PackWords(q: i32, q1: u32, m: i32) returns (hi: u32, lo: u32)
    requires 0 <= q <= 0x40_0000 && -537 <= m <= 511
    ensures hi < 0x8000_0000
    ensures Pair(hi, lo) == (m + 1022) * 0x10_0000_0000_0000 + Pair(q, q1) / 2
  {
    var ix0: i32 := q / 2 + 0x3fe0_0000;
    lo := q1 / 2;
    SignBit(lo);
    if q % 2 == 1 { lo := Or(0x8000_0000, lo); }
    ix0 := ix0 + m * 0x10_0000;
    hi := ix0;
  }

  lemma SignBit(x: nat)
    requires x < 0x8000_0000
    ensures Or(0x8000_0000, x) == 0x8000_0000 + x
  {
    Pow2Constants();
    OrDisjoint(0x8000_0000, x, 31);
  }

  /** The 54 bits and the remainder from the two loops are the exact integer root. */
  lemma RootBitsExact(x: nat)
    requires 0x10_0000_0000_0000 <= x < 0x40_0000_0000_0000
    ensures AllDigits(x * 0x40_0000_0000_0000, Run(2 * x, 53, 54).root, Run(2 * x, 53, 54).rem)
  {
    DoubleConstants();
    FirstDigit(BINARY64, x);
    RunDigits(x * 0x40_0000_0000_0000, 2 * x, 53, 54);
  }

  lemma DoubleResult(mode: Rounding, mag: nat, m0: nat, e: int, x: nat, m: int, q: nat, rem: nat, z: nat)
    requires Normalized(BINARY64, mag, m0, e) && e <= 2046
    requires m == (e - 1023) / 2 && x == (if (e - 1023) % 2 == 1 then 2 * m0 else m0)
    requires AllDigits(x * 0x40_0000_0000_0000, q, rem)
    requires z == (m + 1022) * 0x10_0000_0000_0000 + RoundBit(mode, q, rem != 0)
    ensures IsRoot(BINARY64, mode, mag, z)
  {
    DoubleConstants();
    RootResult(BINARY64, mode, mag, m0, e, x, m, q, rem, z);
  }

  /** All 54 bits of the root: both loops, started on the doubled significand. */
  method RootBits(x0: i32, x1: u32, ghost x: nat) returns (q: i32, q1: u32, ix0: i32, ix1: u32)
    requires 0x10_0000 <= x0 < 0x40_0000 && x == Pair(x0, x1)
    ensures 0 <= q < 0x40_0000 && 0 <= ix0
    ensures AllDigits(x * 0x40_0000_0000_0000, Pair(q, q1), Pair(ix0, ix1))
  {
    DoublePairWords(x0, x1);
    ix0 := x0 + (x0 + x1 / 0x8000_0000);
    ix1 := (x1 + x1) % 0x1_0000_0000;
    ghost var k: nat;
    var s0: i32;
    q, s0, ix0, ix1, k := HighBits(ix0, ix1, 2 * x);
    q1, ix0, ix1, k := LowBits(q, s0, ix0, ix1, 2 * x, k);
    RootBitsExact(x);
  }

  /** The words hold the correctly rounded root of the positive datum x. */
  ghost predicate IsRootWords(mode: Rounding, x: nat, hi: u32, lo: u32) {
    hi < 0x8000_0000 && IsRoot(BINARY64, mode, Mag(BINARY64, x), Pair(hi, lo))
  }

  /** The path taken by positive finite arguments, for either behaviour of a shift by 32. */
  method SqrtPositive(hi: u32, lo: u32, keeps: bool, mode: Rounding) returns (zh: u32, zl: u32)
    requires 0 < Pair(hi, lo) < INF
    ensures IsRootWords(mode, Pair(hi, lo), zh, zl)
  {
    var ix0: i32, ix1: u32, m: i32, q: i32, q1: u32;
    ix0, ix1, m := Normalise(hi, lo, keeps);
    ghost var m0, e := Pair(ix0, ix1), m;
    m := m - 1023;                     // unbias
    if m % 2 == 1 {                    // odd m: double x to make it even
      DoublePairWords(ix0, ix1);
      ix0 := ix0 + (ix0 + ix1 / 0x8000_0000);
      ix1 := (ix1 + ix1) % 0x1_0000_0000;
    }
    m := m / 2;
    ghost var x := Pair(ix0, ix1);
    q, q1, ix0, ix1 := RootBits(ix0, ix1, x);
    ghost var root, rem := Pair(q, q1), Pair(ix0, ix1);
    q, q1 := RoundWords(q, q1, ix0, ix1, mode);
    zh, zl := PackWords(q, q1, m);
    DoubleResult(mode, Mag(BINARY64, Pair(hi, lo)), m0, e, x, m, root, rem, Pair(zh, zl));
  }

  lemma Classes(hi: u32, lo: u32)
    ensures (hi / 0x10_0000) % 0x800 == 0x7ff <==> Datum((hi, lo)) >= INF
    ensures Datum((hi, lo)) == 0 <==> hi % 0x8000_0000 == 0 && lo == 0
    ensures hi < 0x8000_0000 ==> Datum((hi, lo)) == Pair(hi, lo)
    ensures hi >= 0x8000_0000 ==> Pair(hi, lo) >= INF && (hi % 0x8000_0000 == 0 <==> hi == 0x8000_0000)
    ensures hi == 0x7ff0_0000 && lo == 0 ==> Datum((hi, lo)) == INF
  {
    HighFields(hi);
  }

  lemma HighFields(hi: u32)
    ensures (hi / 0x10_0000) % 0x800 == 0x7ff <==> hi % 0x8000_0000 >= 0x7ff0_0000
    ensures hi % 0x8000_0000 == if hi < 0x8000_0000 then hi else hi - 0x8000_0000
  {
  }

  /** All arguments: NaN exactly for NaN and negative non-zero numbers; zeros and +inf unchanged. */
  method Sqrt(hi: u32, lo: u32, keeps: bool, mode: Rounding) returns (z: Returned<(u32, u32)>)
    ensures z == NaN <==> Datum((hi, lo)) > INF || (hi >= 0x8000_0000 && Datum((hi, lo)) != 0)
    ensures lo == 0 && (hi % 0x8000_0000 == 0 || hi == 0x7ff0_0000) ==> z == Number((hi, lo))
    ensures 0 < Pair(hi, lo) < INF ==> z.Number? && IsRootWords(mode, Pair(hi, lo), z.bits.0, z.bits.1)
  {
    var ix0: i32 := Signed32(hi);
    Classes(hi, lo);

    // Inf and NaN: x*x+x
    if (hi / 0x10_0000) % 0x800 == 0x7ff {
      if Pair(hi, lo) == INF { return Number((hi, lo)); }
      return NaN;
    }
    // zero and negative numbers
    if ix0 <= 0 {
      var zero := BothZero(hi % 0x8000_0000, lo);
      if zero { return Number((hi, lo)); }
      if ix0 < 0 { return NaN; }
    }
    var zh, zl := SqrtPositive(hi, lo, keeps, mode);
    z := Number((zh, zl));
  }
}
