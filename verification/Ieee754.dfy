/** Binary floating-point encodings (section 3.4 of IEEE 754-2008).

    A datum without its sign bit is one natural `b`: biased exponent above `frac` fraction
    bits.  The magnitude of a finite datum is the natural number `Mag(f, b)`, counted in units
    of the smallest subnormal, 2^-(bias - 1 + frac). */
module Ieee754 {
  import opened Bits

  datatype Format = Format(frac: nat, bias: nat)
  {
    /** 2^frac, the weight of the implicit bit. */
    function One(): (p: nat) ensures p >= 1 { Pow2(frac) }

    /** The encoding of infinity: all exponent bits set. */
    function Inf(): nat { Scale(2 * bias + 1, frac) }

    /** The exponent (base 2) of 1.0 in units of the smallest subnormal. */
    function UnitExp(): int { bias - 1 + frac }

    ghost predicate Valid() { frac >= 1 && bias >= frac + 4 }
  }

  const BINARY32 := Format(23, 127)
  const BINARY64 := Format(52, 1023)
  const BINARY128 := Format(112, 16383)

  lemma InfinityEncoding(f: Format)
    ensures f.Inf() == (2 * f.bias + 1) * f.One()
  {
    ScaleIsProduct(2 * f.bias + 1, f.frac);
  }

  /** What a routine returns: a NaN (whose payload is not modelled) or the bits of a number. */
  datatype Returned<T> = NaN | Number(bits: T)

  function Exponent(f: Format, b: nat): nat {
    Shr(b, f.frac)
  }

  function Fraction(f: Format, b: nat): nat {
    Low(b, f.frac)
  }

  /** The magnitude of the datum b, in units of the smallest subnormal. */
  function Mag(f: Format, b: nat): nat {
    if Exponent(f, b) == 0 then Fraction(f, b)
    else Scale(f.One() + Fraction(f, b), Exponent(f, b) - 1)
  }

  /** The distance from Mag(b) to Mag(b + 1). */
  function Ulp(f: Format, b: nat): (u: nat)
    ensures u >= 1
  {
    if Exponent(f, b) == 0 then 1 else Pow2(Exponent(f, b) - 1)
  }

  lemma SplitFields(f: Format, b: nat)
    ensures b == Exponent(f, b) * f.One() + Fraction(f, b) && Fraction(f, b) < f.One()
  {
    ShrLow(b, f.frac);
  }

  lemma Fields(f: Format, b: nat, e: nat, m: nat)
    requires b == e * f.One() + m && m < f.One()
    ensures Exponent(f, b) == e && Fraction(f, b) == m
  {
    ShrUnique(b, f.frac, e, m);
  }

  /** Consecutive encodings are one unit in the last place apart, across binades too. */
  lemma MagStep(f: Format, b: nat)
    ensures Mag(f, b + 1) == Mag(f, b) + Ulp(f, b)
  {
    var e, m, p := Exponent(f, b), Fraction(f, b), f.One();
    SplitFields(f, b);
    if m + 1 < p {
      Fields(f, b + 1, e, m + 1);
      if e != 0 { ScaleNext(p + m, e - 1); }
    } else {
      NextMultiple(e, p);
      Fields(f, b + 1, e + 1, 0);
      if e != 0 {
        ScaleNext(p + m, e - 1);
        ScaleAdd(p, 1, e - 1);
        assert Scale(p, 1) == 2 * Scale(p, 0);
      }
    }
  }

  lemma NextMultiple(a: nat, b: nat)
    ensures (a + 1) * b == a * b + b
  {
  }

  /** The order of the encodings is the order of the magnitudes. */
  lemma {:induction false} MagMonotone(f: Format, a: nat, b: nat)
    requires a < b
    ensures Mag(f, a) + Ulp(f, a) <= Mag(f, b)
    decreases b - a
  {
    MagStep(f, a);
    if a + 1 < b {
      MagMonotone(f, a + 1, b);
    }
  }

  /** A normalised significand with its (possibly non-positive) biased exponent encodes at b. */
  lemma PackNormal(f: Format, e: nat, m: nat)
    requires e >= 1 && f.One() <= m <= 2 * f.One()
    ensures Mag(f, (e - 1) * f.One() + m) == Scale(m, e - 1) == m * Pow2(e - 1)
    ensures m < 2 * f.One() ==> Ulp(f, (e - 1) * f.One() + m) == Pow2(e - 1)
    ensures m == 2 * f.One() ==> Ulp(f, (e - 1) * f.One() + m) == Pow2(e)
  {
    var p, b := f.One(), (e - 1) * f.One() + m;
    if m < 2 * p {
      NextMultiple(e - 1, p);
      Fields(f, b, e, m - p);
    } else {
      NextMultiple(e - 1, p);
      NextMultiple(e, p);
      Fields(f, b, e + 1, 0);
      ScaleAdd(p, 1, e - 1);
      assert Scale(p, 1) == 2 * Scale(p, 0);
    }
    ScaleIsProduct(m, e - 1);
  }

  /** The significand m with biased exponent e (non-positive below the normal range) has the
      value of the magnitude mag: mag == m * 2^(e - 1). */
  ghost predicate SameValue(f: Format, mag: nat, m: nat, e: int) {
    && 1 - f.frac <= e
    && Scale(mag, f.frac) == Scale(m, f.frac + e - 1)
  }

  /** SameValue with the leading bit of m in the implicit bit's place. */
  ghost predicate Normalized(f: Format, mag: nat, m: nat, e: int) {
    f.One() <= m < 2 * f.One() && SameValue(f, mag, m, e)
  }

  /** A normal datum is normalised by its own fields. */
  lemma NormalFields(f: Format, b: nat)
    requires Exponent(f, b) >= 1
    ensures Normalized(f, Mag(f, b), f.One() + Fraction(f, b), Exponent(f, b))
  {
    var e, m := Exponent(f, b), f.One() + Fraction(f, b);
    SplitFields(f, b);
    ScaleAdd(m, e - 1, f.frac);
  }

  /** Shifting a subnormal left by s places, up to the implicit bit, normalises it. */
  lemma SubnormalShift(f: Format, mag: nat, s: nat)
    requires 0 < mag < f.One() <= Scale(mag, s) < 2 * f.One()
    ensures s <= f.frac && Normalized(f, mag, Scale(mag, s), 1 - s)
  {
    if s > f.frac {
      ScaleAtLeast(mag, s, f.frac + 1);
    }
    ScaleAdd(mag, s, f.frac - s);
  }

  /** A smaller exponent means a smaller magnitude. */
  lemma NormalizedOrder(f: Format, x: nat, mx: nat, ex: int, y: nat, my: nat, ey: int)
    requires Normalized(f, x, mx, ex) && Normalized(f, y, my, ey) && ex < ey
    ensures x < y
  {
    var c := f.frac + ex - 1;
    ScaleAdd(my, ey - ex, c);
    ScaleTwice(my, f.One(), ey - ex);
    ScaleStrict(mx, Scale(my, ey - ex), c);
    ScaleStrict(x, y, f.frac);
  }

  lemma NormalizedPositive(f: Format, x: nat, m: nat, e: int)
    requires Normalized(f, x, m, e)
    ensures x >= 1
  {
    ScaleAtLeast(m, f.frac + e - 1, 0);
    if x == 0 { ScaleIsProduct(0, f.frac); }
  }

  /** Encoding a normalised significand in the normal range gives back its magnitude. */
  lemma EncodeNormal(f: Format, mag: nat, m: nat, e: int)
    requires Normalized(f, mag, m, e) && e >= 1
    ensures Mag(f, (e - 1) * f.One() + m) == mag
  {
    PackNormal(f, e, m);
    ScaleAdd(m, e - 1, f.frac);
    ScaleStrict(mag, Scale(m, e - 1), f.frac);
  }

  /** Below the normal range the significand is an exact multiple of 2^(1 - e): the right shift
      that makes it subnormal drops no set bit, and its result encodes itself. */
  lemma EncodeSubnormal(f: Format, mag: nat, m: nat, e: int)
    requires Normalized(f, mag, m, e) && e <= 0
    ensures m == Scale(mag, 1 - e) && Shr(m, 1 - e) == mag && mag < f.One() && Mag(f, mag) == mag
  {
    ScaleAdd(mag, 1 - e, f.frac + e - 1);
    ScaleStrict(m, Scale(mag, 1 - e), f.frac + e - 1);
    ShrScale(mag, 1 - e);
    if mag >= f.One() {
      ScaleTwice(mag, f.One(), 1 - e);
    }
    Fields(f, mag, 0, mag);
  }

  lemma {:induction false} ScaleTwice(a: nat, b: nat, k: nat)
    requires a >= b && k >= 1
    ensures Scale(a, k) >= 2 * b
  {
    if k > 1 { ScaleTwice(a, b, k - 1); }
  }
}
