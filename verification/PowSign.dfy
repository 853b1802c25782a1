/** openlibm/src/e_pow.c, lines 106-192: is y an odd integer, an even one or neither, and what
    that makes of the sign of x**y. */
module PowSign {
  import opened Bits
  import opened Ieee754
  import opened DoubleWords

  // ---- what an integer is ----

  /** The magnitude b stands for an integer: its value is a multiple of one. */
  ghost predicate IsInteger(f: Format, b: nat)
    requires f.UnitExp() >= 0
  {
    Low(Mag(f, b), f.UnitExp()) == 0
  }

  ghost predicate IsOdd(f: Format, b: nat)
    requires f.UnitExp() >= 0
  {
    IsInteger(f, b) && Shr(Mag(f, b), f.UnitExp()) % 2 == 1
  }

  /** Bits of a scaled number. */
  lemma {:induction false} ScaledBits(m: nat, s: nat, u: nat)
    requires s <= u
    ensures Low(Scale(m, u - s), u) == 0 <==> Low(m, s) == 0
    ensures Shr(Scale(m, u - s), u) == Shr(m, s)
  {
    if s < u {
      assert Scale(m, u - s) / 2 == Scale(m, u - 1 - s) && Scale(m, u - s) % 2 == 0;
      ScaledBits(m, s, u - 1);
    }
  }

  lemma {:induction false} ScaledWhole(m: nat, d: nat, u: nat)
    ensures Low(Scale(m, d + u), u) == 0 && Shr(Scale(m, d + u), u) == Scale(m, d)
  {
    if u != 0 {
      assert Scale(m, d + u) / 2 == Scale(m, d + u - 1) && Scale(m, d + u) % 2 == 0;
      ScaledWhole(m, d, u - 1);
    }
  }

  lemma {:induction false} LowOfSmall(v: nat, k: nat)
    requires v < Pow2(k)
    ensures Low(v, k) == v
  {
    if k != 0 { LowOfSmall(v / 2, k - 1); }
  }

  /** Exponent past the fraction: an even integer. */
  lemma LargeIsEven(f: Format, b: nat)
    requires Exponent(f, b) > f.bias + f.frac && f.UnitExp() >= 0
    ensures IsInteger(f, b) && !IsOdd(f, b)
  {
    var m, d := f.One() + Fraction(f, b), Exponent(f, b) - 1 - f.UnitExp();
    ScaledWhole(m, d, f.UnitExp());
    assert Scale(m, d) == 2 * Scale(m, d - 1);
  }

  /** Magnitude below one: not an integer unless zero. */
  lemma SmallIsFraction(f: Format, b: nat)
    requires 0 < b && Exponent(f, b) < f.bias && f.bias >= 1
    ensures !IsInteger(f, b)
  {
    var one := MagOfOne(f);
    SplitFields(f, b);
    MulBelow(Exponent(f, b), f.bias, f.One());
    MagMonotone(f, b, one);
    MagMonotone(f, 0, b);
    LowOfSmall(Mag(f, b), f.UnitExp());
  }

  lemma MagOfOne(f: Format) returns (one: nat)
    requires f.bias >= 1
    ensures one == f.bias * f.One() && Mag(f, one) == Pow2(f.UnitExp())
  {
    one := f.bias * f.One();
    Fields(f, one, f.bias, 0);
    ScaleIsProduct(f.One(), f.bias - 1);
    Pow2Add(f.frac, f.bias - 1);
  }

  lemma MulBelow(a: nat, b: nat, p: nat)
    requires a < b
    ensures a * p + p <= b * p
    decreases b - a
  {
    NextMultiple(a, p);
    if a + 1 < b { MulBelow(a + 1, b, p); }
  }

  /** In between, the low frac - k bits of the significand are the fractional part. */
  lemma MiddleBits(f: Format, b: nat, s: nat)
    requires 1 <= Exponent(f, b) && s == f.frac + f.bias - Exponent(f, b) && s <= f.frac && f.UnitExp() >= 0
    ensures IsInteger(f, b) <==> Low(f.One() + Fraction(f, b), s) == 0
    ensures IsOdd(f, b) <==> Low(f.One() + Fraction(f, b), s) == 0 && Shr(f.One() + Fraction(f, b), s) % 2 == 1
  {
    ScaledBits(f.One() + Fraction(f, b), s, f.UnitExp());
  }

  // ---- the same, on words ----

  lemma {:induction false} AddMultiple(c: nat, lo: nat, k: nat, s: nat)
    requires s <= k
    ensures Low(Scale(c, k) + lo, s) == Low(lo, s)
    ensures Shr(Scale(c, k) + lo, s) == Scale(c, k - s) + Shr(lo, s)
  {
    if s != 0 {
      assert (Scale(c, k) + lo) / 2 == Scale(c, k - 1) + lo / 2 && (Scale(c, k) + lo) % 2 == lo % 2;
      AddMultiple(c, lo / 2, k - 1, s - 1);
    }
  }

  lemma {:induction false} LowSplit(x: nat, a: nat, b: nat)
    ensures Low(x, a + b) == 0 <==> Low(x, a) == 0 && Low(Shr(x, a), b) == 0
  {
    if a != 0 { LowSplit(x / 2, a - 1, b); }
  }

  /** Shifting right and back tests that the s low bits are clear. */
  lemma ShiftBack(x: nat, s: nat)
    ensures Scale(Shr(x, s), s) == x <==> Low(x, s) == 0
    ensures Scale(Shr(x, s), s) <= x
  {
    ShrLow(x, s);
    ScaleIsProduct(Shr(x, s), s);
  }

  /** The high word starts at bit k == 32 of the pair. */
  lemma PairScale(hi: nat, lo: u32) returns (k: nat)
    ensures k == 32 && Pair(hi, lo) == Scale(hi, k) + lo && lo < Pow2(k)
  {
    k := 32;
    ScaleIsProduct(hi, 32);
    Pow2Constants();
  }

  /** s < k: the fractional part lies in the low word. */
  lemma FractionInLow(hi: nat, lo: nat, k: nat, s: nat)
    requires s < k
    ensures Low(Scale(hi, k) + lo, s) == Low(lo, s)
    ensures Shr(Scale(hi, k) + lo, s) % 2 == Shr(lo, s) % 2
  {
    AddMultiple(hi, lo, k, s);
    EvenPlus(Scale(hi, k - s - 1), Shr(lo, s));
  }

  /** s >= k: it covers the low word and part of the high one. */
  lemma FractionInHigh(hi: nat, lo: nat, k: nat, s: nat)
    requires s >= k && lo < Pow2(k)
    ensures Low(Scale(hi, k) + lo, s) == 0 <==> lo == 0 && Low(hi, s - k) == 0
    ensures Shr(Scale(hi, k) + lo, s) == Shr(hi, s - k)
  {
    AddMultiple(hi, lo, k, k);
    LowOfSmall(lo, k);
    ShrUnique(lo, k, 0, lo);
    LowSplit(Scale(hi, k) + lo, k, s - k);
    ShrAdd(Scale(hi, k) + lo, k, s - k);
  }

  lemma {:induction false} ShrOdd(c: nat, m: nat, k: nat, r: nat)
    requires r <= k && (r == k ==> m < Pow2(k))
    ensures r < k ==> Shr(Scale(c, k) + m, r) % 2 == Shr(m, r) % 2
    ensures r == k ==> Shr(Scale(c, k) + m, r) == c
    ensures Low(Scale(c, k) + m, r) == Low(m, r)
  {
    AddMultiple(c, m, k, r);
    if r < k {
      EvenPlus(Scale(c, k - r - 1), Shr(m, r));
    } else {
      ShrUnique(m, k, 0, m);
    }
  }

  /** The high word with its exponent field serves in place of the significand's: below bit k
      they agree, and for y in [1,2) the field 0x3ff is odd like the implicit bit. */
  lemma ExponentForImplicit(e: nat, m: nat, k: nat, r: nat)
    requires r <= k && (r == k ==> e % 2 == 1) && m < Pow2(k)
    ensures Low(Scale(e, k) + m, r) == Low(Scale(1, k) + m, r)
    ensures Shr(Scale(e, k) + m, r) % 2 == Shr(Scale(1, k) + m, r) % 2
  {
    ShrOdd(e, m, k, r);
    ShrOdd(1, m, k, r);
  }

  // ---- y ----

  lemma Words(iy: nat, ly: u32)
    ensures Exponent(BINARY64, Pair(iy, ly)) == iy / 0x10_0000
    ensures Fraction(BINARY64, Pair(iy, ly)) == Pair(iy % 0x10_0000, ly)
    ensures BINARY64.One() + Fraction(BINARY64, Pair(iy, ly)) == Pair(0x10_0000 + iy % 0x10_0000, ly)
  {
    DoubleConstants();
    Fields(BINARY64, Pair(iy, ly), iy / 0x10_0000, Pair(iy % 0x10_0000, ly));
  }

  /** 0, 1 or 2: not an integer, odd, even. */
  ghost function Parity(b: nat): (p: nat)
    ensures p <= 2
  {
    if !IsInteger(BINARY64, b) then 0 else if IsOdd(BINARY64, b) then 1 else 2
  }

  /** Exponent k above 20: the point lies in the low word. */
  lemma PointInLow(iy: nat, ly: u32, s: nat)
    requires 1 <= iy / 0x10_0000 && s == 52 + 1023 - iy / 0x10_0000 && s < 32
    ensures Parity(Pair(iy, ly)) == if Scale(Shr(ly, s), s) == ly then 2 - Shr(ly, s) % 2 else 0
  {
    Words(iy, ly);
    MiddleBits(BINARY64, Pair(iy, ly), s);
    var k := PairScale(0x10_0000 + iy % 0x10_0000, ly);
    FractionInLow(0x10_0000 + iy % 0x10_0000, ly, k, s);
    ShiftBack(ly, s);
  }

  /** Exponent k from 0 to 20: it lies in the high word. */
  lemma PointInHigh(iy: nat, ly: u32, r: nat)
    requires r == 20 + 1023 - iy / 0x10_0000 && r <= 20
    ensures Parity(Pair(iy, ly)) == if ly == 0 && Scale(Shr(iy, r), r) == iy then 2 - Shr(iy, r) % 2 else 0
  {
    HighWordParity(iy, iy / 0x10_0000, iy % 0x10_0000, ly, r);
    ShiftBack(iy, r);
  }

  lemma HighWordParity(iy: nat, e: nat, m: nat, ly: u32, r: nat)
    requires iy == e * 0x10_0000 + m && m < 0x10_0000 && r == 20 + 1023 - e && r <= 20
    ensures IsInteger(BINARY64, Pair(iy, ly)) <==> ly == 0 && Low(iy, r) == 0
    ensures IsOdd(BINARY64, Pair(iy, ly)) <==> ly == 0 && Low(iy, r) == 0 && Shr(iy, r) % 2 == 1
  {
    PairBits(iy, e, m, ly, r);
    HighFraction(iy, e, m, r);
  }

  lemma PairBits(iy: nat, e: nat, m: nat, ly: u32, r: nat)
    requires iy == e * 0x10_0000 + m && m < 0x10_0000 && r == 20 + 1023 - e && r <= 20
    ensures IsInteger(BINARY64, Pair(iy, ly)) <==> ly == 0 && Low(0x10_0000 + m, r) == 0
    ensures IsOdd(BINARY64, Pair(iy, ly)) <==>
            ly == 0 && Low(0x10_0000 + m, r) == 0 && Shr(0x10_0000 + m, r) % 2 == 1
  {
    var k := PointAboveWord(0x10_0000 + m, ly, r);
    Words(iy, ly);
    MiddleBits(BINARY64, Pair(iy, ly), k + r);
  }

  lemma PointAboveWord(hi: nat, lo: u32, r: nat) returns (k: nat)
    ensures k == 32
    ensures Low(Pair(hi, lo), k + r) == 0 <==> lo == 0 && Low(hi, r) == 0
    ensures Shr(Pair(hi, lo), k + r) == Shr(hi, r)
  {
    k := PairScale(hi, lo);
    FractionInHigh(hi, lo, k, k + r);
  }

  lemma HighFraction(iy: nat, e: nat, m: nat, r: nat)
    requires iy == e * 0x10_0000 + m && m < 0x10_0000 && r <= 20 && (r == 20 ==> e % 2 == 1)
    ensures Low(iy, r) == Low(0x10_0000 + m, r)
    ensures Shr(iy, r) % 2 == Shr(0x10_0000 + m, r) % 2
  {
    var k := 20;
    assert Scale(e, k) == e * 0x10_0000 && Scale(1, k) == 0x10_0000 && Pow2(k) == 0x10_0000 by {
      ScaleIsProduct(e, 20);
      ScaleIsProduct(1, 20);
      Pow2Constants();
    }
    ExponentForImplicit(e, m, k, r);
  }

  lemma OutsideTheMiddle(iy: nat, ly: u32)
    ensures iy >= 0x4340_0000 ==> Parity(Pair(iy, ly)) == 2
    ensures iy < 0x3ff0_0000 && Pair(iy, ly) > 0 ==> Parity(Pair(iy, ly)) == 0
  {
    Words(iy, ly);
    if iy >= 0x4340_0000 {
      LargeIsEven(BINARY64, Pair(iy, ly));
    } else if iy < 0x3ff0_0000 && Pair(iy, ly) > 0 {
      SmallIsFraction(BINARY64, Pair(iy, ly));
    }
  }

  /** Lines 132-133 and 135-136, on either word. */
  method WholeParity(w: u32, s: nat) returns (yisint: i32)
    ensures yisint == if Scale(Shr(w, s), s) == w then 2 - Shr(w, s) % 2 else 0
  {
    yisint := 0;
    ShiftBack(w, s);
    var j := Shr(w, s);
    if Scale(j, s) % WORD == w { yisint := 2 - j % 2; }
  }

  /** Lines 133-138: y in [1, 2^53). */
  method MiddleRange(iy: u32, ly: u32) returns (yisint: i32)
    requires 0x3ff0_0000 <= iy < 0x4340_0000
    ensures yisint == Parity(Pair(iy, ly))
  {
    yisint := 0;
    var k := iy / 0x10_0000 - 0x3ff;
    if k > 20 {
      PointInLow(iy, ly, 52 - k);
      yisint := WholeParity(ly, 52 - k);
    } else {
      PointInHigh(iy, ly, 20 - k);
      if ly == 0 {
        yisint := WholeParity(iy, 20 - k);
      }
    }
  }

  /** Lines 121-139. */
  method YIsInt(hx: u32, hy: u32, ly: u32) returns (yisint: i32)
    requires 0 < Datum((hy, ly))
    ensures Signed32(hx) < 0 ==> yisint == Parity(Datum((hy, ly)))
    ensures Signed32(hx) >= 0 ==> yisint == 0
  {
    var iy := hy % 0x8000_0000;
    yisint := 0;
    if Signed32(hx) < 0 {
      OutsideTheMiddle(iy, ly);
      if iy >= 0x4340_0000 {
        yisint := 2;
      } else if iy >= 0x3ff0_0000 {
        yisint := MiddleRange(iy, ly);
      }
    }
  }

  // ---- the sign of x**y ----

  const ONE: int := 0x3ff0_0000_0000_0000

  /** What the special cases decide: a NaN, or the sign of the result with what its magnitude
      is.  Power stands for the general case, computed after line 192. */
  datatype Outcome = NotANumber | Signed(negative: bool, magnitude: Magnitude)
  datatype Magnitude = One | Infinite | Zero | X | OverX | Square | Cube | Fourth | Root | Power

  predicate Negative(w: u32) { Signed32(w) < 0 }

  ghost predicate NaNWords(x: (u32, u32)) { Datum(x) > INF }

  /** Section 9.2.1 of IEEE 754-2008, for a y of parity p: pow is invalid for NaN operands (save
      a zero y or an x of 1) and for negative finite x with y not an integer. */
  ghost predicate Invalid(x: (u32, u32), y: (u32, u32), p: nat) {
    && Datum(y) != 0
    && (Negative(x.0) || Datum(x) != ONE)
    && (|| NaNWords(x)
        || NaNWords(y)
        || (Negative(x.0) && 0 < Datum(x) < INF && Datum(y) < INF && p == 0))
  }

  /** The sign: that of x when y is an odd integer, and plus otherwise. */
  ghost predicate ResultNegative(x: (u32, u32), y: (u32, u32), p: nat) {
    Negative(x.0) && Datum(y) < INF && p == 1
  }

  ghost predicate Decides(o: Outcome, x: (u32, u32), y: (u32, u32), p: nat) {
    && (o == NotANumber <==> Invalid(x, y, p))
    && (o.Signed? ==> (o.negative <==> ResultNegative(x, y, p)))
  }

  // ---- the magnitude of x**y ----

  datatype Size = Nought | Unit | Endless | Proper

  ghost function SizeOf(x: (u32, u32)): Size {
    if Datum(x) == 0 then Nought else if Datum(x) == ONE then Unit else if Datum(x) == INF then Endless else Proper
  }

  function Inverse(s: Size): Size { if s == Nought then Endless else if s == Endless then Nought else s }

  /** The size of what the magnitude stands for. */
  ghost function Result(m: Magnitude, x: (u32, u32)): Size {
    match m
    case One => Unit
    case Infinite => Endless
    case Zero => Nought
    case OverX => Inverse(SizeOf(x))
    case _ => SizeOf(x)
  }

  /** The size of |x|**y (section 9.2.1 of IEEE 754-2008): one for a zero y or |x| == 1, and else
      infinite or zero for an infinite y or a zero or infinite x, by which side of one x is on and the
      sign of y. */
  ghost function PowerSize(x: (u32, u32), y: (u32, u32)): Size {
    if Datum(y) == 0 || Datum(x) == ONE then Unit
    else if Datum(y) == INF || Datum(x) == 0 || Datum(x) == INF then
      if (Datum(x) > ONE) == !Negative(y.0) then Endless else Nought
    else Proper
  }

  /** Twice the exponent that the magnitude stands for: x, 1/x, x*x, x*x*x, u*u and sqrt(x). */
  function TwiceExponent(m: Magnitude): int {
    match m
    case X => 2
    case OverX => -2
    case Square => 4
    case Cube => 6
    case Fourth => 8
    case Root => 1
    case _ => 0
  }

  predicate IsSpecialExponent(h: int) { h == -2 || h == 1 || h == 2 || h == 4 || h == 6 || h == 8 }

  /** The value of y is h/2: its magnitude counts units of 2^-UnitExp. */
  ghost predicate YIsHalf(y: (u32, u32), h: int) {
    && (Negative(y.0) <==> h < 0)
    && 2 * Mag(BINARY64, Datum(y)) == Scale(if h < 0 then -h else h, BINARY64.UnitExp())
  }

  /** For a proper power the code takes the magnitude whose exponent is y, and the general case exactly
      if there is none. */
  ghost predicate RaisesToY(m: Magnitude, y: (u32, u32)) {
    if m == Power then forall h :: IsSpecialExponent(h) ==> !YIsHalf(y, h)
    else IsSpecialExponent(TwiceExponent(m)) && YIsHalf(y, TwiceExponent(m))
  }

  ghost predicate HasMagnitude(o: Outcome, x: (u32, u32), y: (u32, u32)) {
    o.Signed? ==>
      && Result(o.magnitude, x) == PowerSize(x, y)
      && (PowerSize(x, y) == Proper ==> RaisesToY(o.magnitude, y))
  }

  ghost predicate KnownParity(iy: nat, p: int) {
    && (iy == 0x3ff0_0000 || iy == 0x4008_0000 ==> p == 1)
    && (iy == 0x4000_0000 || iy == 0x4010_0000 ==> p == 2)
  }

  /** x to the power of plus or minus infinity. */
  ghost function AtInfinity(x: (u32, u32), y: (u32, u32)): Magnitude {
    if Datum(x) == ONE then One
    else if (Datum(x) > ONE) == (y.0 < 0x8000_0000) then Infinite else Zero
  }

  lemma ZeroIsEven()
    ensures Parity(0) == 2
  {
    Words(0, 0);
    LowOfZero(BINARY64.UnitExp());
  }

  lemma {:induction false} LowOfZero(k: nat)
    ensures Low(0, k) == 0 && Shr(0, k) == 0
  {
    if k != 0 { LowOfZero(k - 1); }
  }

  lemma {:induction false} ExactInteger(iy: nat, e: nat, r: nat, c: nat)
    requires e == iy / 0x10_0000 && r == 20 + 1023 - e && r <= 20 && iy == Scale(c, r)
    ensures Parity(Pair(iy, 0)) == 2 - c % 2
  {
    HighWordParity(iy, e, iy % 0x10_0000, 0, r);
    ScaledWhole(c, 0, r);
  }

  lemma SmallScales()
    ensures Scale(0x3ff, 20) == 0x3ff0_0000 && Scale(0x800, 19) == 0x4000_0000
    ensures Scale(0x801, 19) == 0x4008_0000 && Scale(0x1004, 18) == 0x4010_0000
  {
    ScaleIsProduct(0x3ff, 20);
    ScaleIsProduct(0x800, 19);
    ScaleIsProduct(0x801, 19);
    ScaleIsProduct(0x1004, 18);
    Pow2Constants();
    Pow2Halves(20);
    Pow2Halves(19);
  }

  /** 1, 2, 3 and 4. */
  lemma SmallPowers(iy: nat)
    ensures KnownParity(iy, Parity(Pair(iy, 0)))
  {
    SmallScales();
    if iy == 0x3ff0_0000 {
      ExactInteger(iy, 0x3ff, 20, 0x3ff);
    } else if iy == 0x4000_0000 {
      ExactInteger(iy, 0x400, 19, 0x800);
    } else if iy == 0x4008_0000 {
      ExactInteger(iy, 0x400, 19, 0x801);
    } else if iy == 0x4010_0000 {
      ExactInteger(iy, 0x401, 18, 0x1004);
    }
  }

  // ---- the exponents that have a magnitude of their own ----

  /** The high word of h/2. */
  function HighWord(h: int): u32 {
    if h == -2 then 0xbff0_0000
    else if h == 1 then 0x3fe0_0000
    else if h == 2 then 0x3ff0_0000
    else if h == 4 then 0x4000_0000
    else if h == 6 then 0x4008_0000
    else 0x4010_0000
  }

  /** A significand of c halves and exponent e: c * 2^(e - 1024). */
  lemma HalfValue(iy: nat, e: nat, c: nat, f: nat, i: nat, a: nat, k: nat)
    requires e == iy / 0x10_0000 && e >= 1 && 0x10_0000 + iy % 0x10_0000 == c * 0x8_0000
    requires k >= 1 && k == BINARY64.UnitExp() && f == 51 && f + e == (k - 1) + i && Scale(c, i) == 2 * a
    ensures 2 * Mag(BINARY64, Pair(iy, 0)) == Scale(a, k)
  {
    SignificandInHalves(iy, c);
    HalfSignificand(c, f);
    ScalesAgree(c, f, e, i, a, k);
  }

  lemma SignificandInHalves(iy: nat, c: nat)
    requires 0x10_0000 + iy % 0x10_0000 == c * 0x8_0000
    ensures BINARY64.One() + Fraction(BINARY64, Pair(iy, 0)) == c * 0x8_0000_0000_0000
    ensures Exponent(BINARY64, Pair(iy, 0)) == iy / 0x10_0000
  {
    Words(iy, 0);
  }

  lemma ScalesAgree(c: nat, f: nat, e: nat, i: nat, a: nat, k: nat)
    requires e >= 1 && k >= 1 && f + e == (k - 1) + i && Scale(c, i) == 2 * a
    ensures 2 * Scale(Scale(c, f), e - 1) == Scale(a, k)
  {
    ScaleAdd(c, f, e - 1);
    DoubledScale(c, f + e);
    ScaleAdd(c, i, k - 1);
    DoubledScale(a, k);
    ScaleAdd(a, 1, k - 1);
  }

  lemma HalfSignificand(c: nat, f: nat)
    requires f == 51
    ensures Scale(c, f) == c * 0x8_0000_0000_0000
  {
    ScaleIsProduct(c, f);
    Pow2Constants();
    Pow2Halves(f + 1);
  }

  lemma DoubledScale(c: nat, k: nat)
    requires k >= 1
    ensures Scale(c, k) == 2 * Scale(c, k - 1) && Scale(c, 1) == 2 * c
  {
    assert Scale(c, 0) == c;
  }

  lemma SmallScale(c: nat)
    ensures Scale(c, 0) == c && Scale(c, 1) == 2 * c && Scale(c, 2) == 4 * c && Scale(c, 3) == 8 * c
  {
  }

  lemma SpecialMagnitude(h: int, iy: nat, a: nat, k: nat)
    requires IsSpecialExponent(h) && iy == HighWord(h) % 0x8000_0000
    requires a == (if h < 0 then -h else h) && k >= 1 && k == BINARY64.UnitExp()
    ensures 2 * Mag(BINARY64, Pair(iy, 0)) == Scale(a, k)
  {
    var c, i := HalvesOf(h, iy, a);
    HalfValue(iy, iy / 0x10_0000, c, 51, i, a, k);
  }

  /** The significand of h/2 in halves, and where its exponent lies. */
  lemma HalvesOf(h: int, iy: nat, a: nat) returns (c: nat, i: nat)
    requires IsSpecialExponent(h) && iy == HighWord(h) % 0x8000_0000 && a == if h < 0 then -h else h
    ensures iy / 0x10_0000 == 0x3fe + i && 0x10_0000 + iy % 0x10_0000 == c * 0x8_0000 && Scale(c, i) == 2 * a
  {
    c := if h == 6 then 3 else 2;
    i := if h == 1 then 0 else if h == 2 || h == -2 then 1 else if h == 8 then 3 else 2;
    SmallScale(c);
  }

  lemma SameMagnitude(f: Format, a: nat, b: nat)
    requires Mag(f, a) == Mag(f, b)
    ensures a == b
  {
    if a < b { MagMonotone(f, a, b); }
    if b < a { MagMonotone(f, b, a); }
  }

  /** y is h/2 exactly if its words are those of h/2. */
  lemma SpecialExactly(y: (u32, u32), h: int)
    requires IsSpecialExponent(h)
    ensures YIsHalf(y, h) <==> y == (HighWord(h), 0)
  {
    ExactWords(y, h, HighWord(h) % 0x8000_0000, if h < 0 then -h else h, BINARY64.UnitExp());
  }

  lemma ExactWords(y: (u32, u32), h: int, iy: nat, a: nat, k: nat)
    requires IsSpecialExponent(h) && iy == HighWord(h) % 0x8000_0000
    requires a == (if h < 0 then -h else h) && k == BINARY64.UnitExp()
    ensures (Negative(y.0) <==> h < 0) && 2 * Mag(BINARY64, Datum(y)) == Scale(a, k) <==> y == (HighWord(h), 0)
  {
    SpecialMagnitude(h, iy, a, k);
    if (Negative(y.0) <==> h < 0) && 2 * Mag(BINARY64, Datum(y)) == Scale(a, k) {
      SameMagnitude(BINARY64, Datum(y), Pair(iy, 0));
      SameWords(y.0 % 0x8000_0000, y.1, iy, 0);
      SignAndRest(y.0, HighWord(h));
    }
  }

  lemma SameWords(hi: nat, lo: u32, hi': nat, lo': u32)
    requires Pair(hi, lo) == Pair(hi', lo')
    ensures hi == hi' && lo == lo'
  {
  }

  lemma SignAndRest(a: u32, b: u32)
    requires a % 0x8000_0000 == b % 0x8000_0000 && (Negative(a) <==> Negative(b))
    ensures a == b
  {
  }

  lemma SpecialTaken(m: Magnitude, negative: bool, x: (u32, u32), y: (u32, u32))
    requires IsSpecialExponent(TwiceExponent(m)) && y == (HighWord(TwiceExponent(m)), 0) && Datum(x) <= INF
    ensures HasMagnitude(Signed(negative, m), x, y)
  {
    SpecialExactly(y, TwiceExponent(m));
    SpecialSize(y, TwiceExponent(m));
  }

  lemma SpecialSize(y: (u32, u32), h: int)
    requires IsSpecialExponent(h) && y == (HighWord(h), 0)
    ensures 0 < Datum(y) < INF && (Negative(y.0) <==> h < 0)
  {
  }

  lemma NoneTaken(y: (u32, u32))
    requires y.1 != 0 || (y.0 % 0x8000_0000 != 0x3ff0_0000 && y.0 != 0x4000_0000 && y.0 != 0x4008_0000
                          && y.0 != 0x4010_0000)
    ensures forall h :: IsSpecialExponent(h) && YIsHalf(y, h) ==> h == 1 && y == (0x3fe0_0000, 0)
  {
    forall h | IsSpecialExponent(h) && YIsHalf(y, h) ensures h == 1 && y == (0x3fe0_0000, 0) { SpecialExactly(y, h); }
  }

  /** Lines 143-151: y infinite. */
  method InfiniteY(x: (u32, u32), y: (u32, u32), ghost p: nat) returns (o: Outcome)
    requires Datum(x) <= INF && Datum(y) == INF && x != (0x3ff0_0000, 0)
    ensures Decides(o, x, y, p) && HasMagnitude(o, x, y)
    ensures o.Signed? && o.magnitude == AtInfinity(x, y)
  {
    var ix := x.0 % 0x8000_0000;
    SpecialWords(ix, x.1);
    var sy := Negative(y.0);
    var one := BothZero((ix - 0x3ff0_0000) % WORD, x.1);
    if one {
      o := Signed(false, One);
    } else if ix >= 0x3ff0_0000 {
      o := if Signed32(y.0) >= 0 then Signed(sy, Infinite) else Signed(false, Zero);
    } else {
      o := if Signed32(y.0) < 0 then Signed(!sy, Infinite) else Signed(false, Zero);
    }
  }

  /** Lines 142-167.  A product's sign is the exclusive or of its operands' signs. */
  method SpecialY(x: (u32, u32), y: (u32, u32), ghost p: nat) returns (o: Outcome, decided: bool)
    requires Datum(x) <= INF && 0 < Datum(y) <= INF && x != (0x3ff0_0000, 0)
    requires y.1 == 0 ==> KnownParity(y.0 % 0x8000_0000, p)
    ensures decided ==> Decides(o, x, y, p) && HasMagnitude(o, x, y)
    ensures !decided ==> forall h :: IsSpecialExponent(h) && YIsHalf(y, h) ==> h == 1 && Negative(x.0)
    ensures Datum(y) == INF ==> decided
    ensures Datum(y) == INF ==> o.Signed? && o.magnitude == AtInfinity(x, y)
  {
    var iy := y.0 % 0x8000_0000;
    SpecialWords(iy, y.1);
    o, decided := NotANumber, false;
    if y.1 == 0 {
      if iy == 0x7ff0_0000 {
        o := InfiniteY(x, y, p);
        return o, true;
      }
      o, decided := FiniteY(x, y, p);
    } else {
      NoneTaken(y);
    }
  }

  /** Lines 152-166: y is 1, -1, 2, 3, 4 or 0.5. */
  method FiniteY(x: (u32, u32), y: (u32, u32), ghost p: nat) returns (o: Outcome, decided: bool)
    requires Datum(x) <= INF && 0 < Datum(y) < INF && x != (0x3ff0_0000, 0)
    requires y.1 == 0 && KnownParity(y.0 % 0x8000_0000, p)
    ensures decided ==> Decides(o, x, y, p) && HasMagnitude(o, x, y)
    ensures !decided ==> forall h :: IsSpecialExponent(h) && YIsHalf(y, h) ==> h == 1 && Negative(x.0)
  {
    var iy := y.0 % 0x8000_0000;
    var sx := Negative(x.0);
    decided := true;
    if iy == 0x3ff0_0000 {
      o := if Signed32(y.0) < 0 then Signed(sx, OverX) else Signed(sx, X);
    } else if Signed32(y.0) == 0x4000_0000 {
      o := Signed(sx != sx, Square);
    } else if Signed32(y.0) == 0x4008_0000 {
      o := Signed((sx != sx) != sx, Cube);
    } else if Signed32(y.0) == 0x4010_0000 {
      o := Signed((sx != sx) != (sx != sx), Fourth);
    } else if Signed32(y.0) == 0x3fe0_0000 && Signed32(x.0) >= 0 {
      o := Signed(false, Root);
    } else {
      NoneTaken(y);
      return NotANumber, false;
    }
    SpecialTaken(o.magnitude, o.negative, x, y);
  }

  lemma SpecialWords(ix: nat, lo: u32)
    requires ix < 0x8000_0000
    ensures Pair(ix, lo) == 0 <==> ix == 0 && lo == 0
    ensures Pair(ix, lo) == ONE <==> ix == 0x3ff0_0000 && lo == 0
    ensures Pair(ix, lo) == INF <==> ix == 0x7ff0_0000 && lo == 0
    ensures (ix - 0x3ff0_0000) % WORD == 0 <==> ix == 0x3ff0_0000
  {
    if ix < 0x3ff0_0000 { DivModUnique(ix - 0x3ff0_0000 + WORD, WORD, 0, ix - 0x3ff0_0000 + WORD); }
  }

  /** Lines 169-180: x is 0, infinite or -1, y finite. */
  method SpecialX(x: (u32, u32), y: (u32, u32), yisint: i32, ghost p: nat) returns (o: Outcome, decided: bool)
    requires Datum(x) <= INF && 0 < Datum(y) < INF && x != (0x3ff0_0000, 0)
    requires p <= 2 && yisint == if Negative(x.0) then p else 0
    ensures decided ==> Decides(o, x, y, p) && HasMagnitude(o, x, y)
    ensures decided <==> Datum(x) in {0, ONE, INF}
  {
    var ix := x.0 % 0x8000_0000;
    SpecialWords(ix, x.1);
    o, decided := NotANumber, false;
    if x.1 == 0 {
      if ix == 0x7ff0_0000 || ix == 0 || ix == 0x3ff0_0000 {
        decided := true;
        var z := false;
        if Signed32(x.0) < 0 {
          var invalid := BothZero((ix - 0x3ff0_0000) % WORD, yisint);
          if invalid { return NotANumber, true; }
          if yisint == 1 { z := !z; }
        }
        o := Signed(z, if Signed32(y.0) < 0 then OverX else X);
      }
    }
  }

  /** Lines 182-192: the masks n|yisint and n|(yisint-1) on words, n being all ones for x > 0. */
  method GeneralSign(x: (u32, u32), y: (u32, u32), yisint: i32, ghost p: nat) returns (o: Outcome)
    requires 0 < Datum(x) < INF && 0 < Datum(y) < INF && Datum(x) != ONE
    requires p <= 2 && yisint == if Negative(x.0) then p else 0
    requires forall h :: IsSpecialExponent(h) && YIsHalf(y, h) ==> Negative(x.0) && p == 0
    ensures Decides(o, x, y, p) && HasMagnitude(o, x, y)
  {
    var n := (x.0 / 0x8000_0000 - 1) % WORD;
    var invalid := BothZero(n, yisint);
    if invalid { return NotANumber; }
    var s := BothZero(n, (yisint - 1) % WORD);
    o := Signed(s, Power);
  }

  lemma HalfIsNoInteger(y: (u32, u32))
    ensures YIsHalf(y, 1) ==> Parity(Datum(y)) == 0
  {
    SpecialExactly(y, 1);
    OutsideTheMiddle(y.0 % 0x8000_0000, y.1);
  }

  /** Lines 116-192, x and y not NaN, y not 0 and x not 1. */
  method PowOfNumbers(x: (u32, u32), y: (u32, u32), ghost p: nat) returns (o: Outcome)
    requires Datum(x) <= INF && 0 < Datum(y) <= INF && x != (0x3ff0_0000, 0)
    requires p == Parity(Datum(y))
    ensures Decides(o, x, y, p) && HasMagnitude(o, x, y)
    ensures Datum(y) == INF ==> o.Signed? && o.magnitude == AtInfinity(x, y)
  {
    if y.1 == 0 { SmallPowers(y.0 % 0x8000_0000); }
    var yisint := YIsInt(x.0, y.0, y.1);
    var decided: bool;
    o, decided := SpecialY(x, y, p);
    if decided { return; }
    o, decided := SpecialX(x, y, yisint, p);
    if decided { return; }
    HalfIsNoInteger(y);
    o := GeneralSign(x, y, yisint, p);
  }

  /** Lines 106-119. */
  method EarlyOut(x: (u32, u32), y: (u32, u32), ghost p: nat) returns (o: Outcome, early: bool)
    requires Datum(y) == 0 ==> p == 2
    ensures early <==> Datum(y) == 0 || x == (0x3ff0_0000, 0) || NaNWords(x) || NaNWords(y)
    ensures early ==> Decides(o, x, y, p) && HasMagnitude(o, x, y)
    ensures Datum(y) == 0 || x == (0x3ff0_0000, 0) ==> o == Signed(false, One)
  {
    var ix, iy := x.0 % 0x8000_0000, y.0 % 0x8000_0000;
    SpecialWords(ix, x.1);
    var zero := BothZero(iy, y.1);
    if zero { return Signed(false, One), true; }
    if Signed32(x.0) == 0x3ff0_0000 && x.1 == 0 { return Signed(false, One), true; }
    if ix > 0x7ff0_0000 || (ix == 0x7ff0_0000 && x.1 != 0) || iy > 0x7ff0_0000 || (iy == 0x7ff0_0000 && y.1 != 0) {
      return NotANumber, true;
    }
    return NotANumber, false;
  }

  /** Lines 106-192: the result is invalid, or negative, exactly when it should be, where the integers
      and the odd integers are those of y's value; and its magnitude is one, infinite or zero exactly
      when it should be, and otherwise the one whose exponent is y's value. */
  method Pow(x: (u32, u32), y: (u32, u32)) returns (o: Outcome, ghost integer: bool, ghost odd: bool)
    ensures integer == IsInteger(BINARY64, Datum(y)) && odd == IsOdd(BINARY64, Datum(y))
    ensures o == NotANumber <==> Invalid(x, y, if integer then 1 else 0)
    ensures o.Signed? ==> (o.negative <==> Negative(x.0) && Datum(y) < INF && odd)
    ensures Datum(y) == 0 || x == (0x3ff0_0000, 0) ==> o == Signed(false, One)
    ensures HasMagnitude(o, x, y)
    ensures Datum(y) == INF && Datum(x) <= INF && x != (0x3ff0_0000, 0) ==>
              o.Signed? && o.magnitude == AtInfinity(x, y)
  {
    ghost var p := Parity(Datum(y));
    integer, odd := IsInteger(BINARY64, Datum(y)), IsOdd(BINARY64, Datum(y));
    var early: bool;
    ZeroIsEven();
    o, early := EarlyOut(x, y, p);
    if !early {
      o := PowOfNumbers(x, y, p);
    }
  }
}
