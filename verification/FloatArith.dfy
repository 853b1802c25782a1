/** Rounded arithmetic on finite data (section 4.3.1 of IEEE 754-2008, round to nearest even),
    on values counted in units of the smallest subnormal, and when it is exact. */
module FloatArith {
  import opened Bits
  import opened Ieee754

  /** How many low bits do not fit the significand. */
  function Excess(f: Format, v: nat): nat {
    if v < 2 * f.One() then 0 else 1 + Excess(f, v / 2)
  }

  /** Round to nearest, ties to even; the exponent range is not bounded above. */
  function Round(f: Format, v: nat): nat {
    var k := Excess(f, v);
    var q := Shr(v, k);
    var rest := v - Scale(q, k);
    if 2 * rest < Pow2(k) || (2 * rest == Pow2(k) && q % 2 == 0) then Scale(q, k) else Scale(q + 1, k)
  }

  /** The computed sum and difference of two finite numbers. */
  function Add(f: Format, a: int, b: int): int {
    if a + b < 0 then 0 - Round(f, -(a + b)) else Round(f, a + b)
  }

  function Subtract(f: Format, a: int, b: int): int {
    Add(f, a, -b)
  }

  /** v fits the significand when 2^e is the unit: it is m * 2^e with m below 2^(frac + 1). */
  ghost predicate Fits(f: Format, v: nat, m: nat, e: nat) {
    v == Scale(m, e) && m < 2 * f.One()
  }

  /** Every datum fits. */
  lemma DatumFits(f: Format, b: nat) returns (m: nat, e: nat)
    ensures Fits(f, Mag(f, b), m, e)
    ensures e == (if Exponent(f, b) == 0 then 0 else Exponent(f, b) - 1)
  {
    SplitFields(f, b);
    if Exponent(f, b) == 0 {
      m, e := Fraction(f, b), 0;
    } else {
      m, e := f.One() + Fraction(f, b), Exponent(f, b) - 1;
    }
  }

  /** Rounding changes nothing that fits. */
  lemma RoundExact(f: Format, v: nat, m: nat, e: nat)
    requires Fits(f, v, m, e)
    ensures Round(f, v) == v
  {
    ExcessAtMost(f, v, m, e);
    var k := Excess(f, v);
    ScaleAdd(m, e - k, k);
    ShrScale(Scale(m, e - k), k);
  }

  /** Where the significand of the rounded value lies. */
  lemma {:induction false} ExcessTop(f: Format, v: nat)
    ensures Shr(v, Excess(f, v)) < 2 * f.One() && (Excess(f, v) > 0 ==> Shr(v, Excess(f, v)) >= f.One())
  {
    if v >= 2 * f.One() { ExcessTop(f, v / 2); }
  }

  /** No number that fits lies strictly between two neighbours of the grid that v is rounded to. */
  lemma NoneBetween(f: Format, q: nat, k: nat, u: nat, m: nat, e: nat)
    requires Fits(f, u, m, e) && (k > 0 ==> q >= f.One())
    ensures u <= Scale(q, k) || u >= Scale(q + 1, k)
  {
    if e >= k {
      ScaleAdd(m, e - k, k);
      ScaleStrict(q, Scale(m, e - k), k);
      ScaleStrict(Scale(m, e - k), q + 1, k);
    } else {
      ScaleStrict(m, 2 * f.One(), e);
      ScaleMore(2 * f.One(), e, k - 1);
      ScaleAdd(f.One(), 1, k - 1);
      assert Scale(f.One(), 1) == 2 * Scale(f.One(), 0);
      ScaleStrict(q, f.One(), k);
    }
  }

  lemma {:induction false} ScaleMore(x: nat, a: nat, b: nat)
    requires a <= b
    ensures Scale(x, a) <= Scale(x, b)
    decreases b
  {
    if a < b { ScaleMore(x, a, b - 1); }
  }

  function Distance(a: nat, b: nat): nat { if a < b then b - a else a - b }

  /** Rounding takes the nearest number that fits; among two that are equally near, the one whose
      significand is even. */
  lemma RoundIsNearest(f: Format, v: nat, u: nat, m: nat, e: nat)
    requires Fits(f, u, m, e)
    ensures Distance(Round(f, v), v) <= Distance(u, v)
    ensures Distance(Round(f, v), v) == Distance(u, v) ==>
              u == Round(f, v) || Shr(Round(f, v), Excess(f, v)) % 2 == 0
  {
    var q, k, lo, p := Neighbours(f, v);
    NoneBetween(f, q, k, u, m, e);
    NearestOfTwo(q, lo, p, v, u);
    ShrScale(q, k);
    ShrScale(q + 1, k);
  }

  /** v lies between lo and lo + p, of which Round takes one. */
  lemma Neighbours(f: Format, v: nat) returns (q: nat, k: nat, lo: nat, p: nat)
    ensures k == Excess(f, v) && (k > 0 ==> q >= f.One())
    ensures lo == Scale(q, k) && lo + p == Scale(q + 1, k) && lo <= v < lo + p
    ensures Round(f, v) == if GoesDown(q, v - lo, p) then Scale(q, k) else Scale(q + 1, k)
  {
    k := Excess(f, v);
    q := Shr(v, k);
    ExcessTop(f, v);
    ShrLow(v, k);
    ScaleIsProduct(q, k);
    ScaleNext(q, k);
    lo, p := Scale(q, k), Pow2(k);
  }

  predicate GoesDown(q: nat, rest: nat, p: nat) { 2 * rest < p || (2 * rest == p && q % 2 == 0) }

  lemma NearestOfTwo(q: nat, lo: nat, p: nat, v: nat, u: nat)
    requires lo <= v < lo + p && (u <= lo || u >= lo + p)
    ensures var r := if GoesDown(q, v - lo, p) then lo else lo + p;
      && Distance(r, v) <= Distance(u, v)
      && (Distance(r, v) == Distance(u, v) ==> u == r || (if GoesDown(q, v - lo, p) then q else q + 1) % 2 == 0)
  {
  }

  lemma {:induction false} ExcessAtMost(f: Format, v: nat, m: nat, e: nat)
    requires Fits(f, v, m, e)
    ensures Excess(f, v) <= e
  {
    if v >= 2 * f.One() {
      assert Scale(m, e) / 2 == Scale(m, e - 1);
      ExcessAtMost(f, v / 2, m, e - 1);
    }
  }

  /** Numbers within a factor of two have an exact difference (Sterbenz). */
  lemma Sterbenz(f: Format, a: nat, ma: nat, ea: nat, b: nat, mb: nat, eb: nat) returns (m: nat)
    requires Fits(f, a, ma, ea) && Fits(f, b, mb, eb) && eb <= ea && b <= a <= 2 * b
    ensures Fits(f, a - b, m, eb)
  {
    ScaleAdd(ma, ea - eb, eb);
    var c := Scale(ma, ea - eb);
    ScaleStrict(c, mb, eb);
    m := c - mb;
    ScaleDifference(c, mb, eb);
    ScaleStrict(m, mb + 1, eb);
    ScaleDifference(mb + 1, mb, eb);
  }

  lemma {:induction false} ScaleDifference(a: nat, b: nat, k: nat)
    requires b <= a
    ensures Scale(a - b, k) == Scale(a, k) - Scale(b, k)
  {
    if k != 0 { ScaleDifference(a, b, k - 1); }
  }

  /** The datum of an exactly representable magnitude. */
  function Encode(f: Format, v: nat): nat {
    if v < f.One() then v else EncodeFrom(f, v, 1)
  }

  function EncodeFrom(f: Format, v: nat, e: nat): nat
    requires e >= 1
  {
    if v < 2 * f.One() then (e - 1) * f.One() + v else EncodeFrom(f, v / 2, e + 1)
  }

  /** Encode inverts Mag: the two are a bijection between data and representable magnitudes. */
  lemma EncodeMag(f: Format, b: nat)
    ensures Encode(f, Mag(f, b)) == b
  {
    SplitFields(f, b);
    if Exponent(f, b) != 0 {
      EncodeNormalDatum(f, Exponent(f, b), Fraction(f, b));
    }
  }

  lemma EncodeNormalDatum(f: Format, e: nat, r: nat)
    requires e >= 1 && r < f.One()
    ensures Encode(f, Scale(f.One() + r, e - 1)) == e * f.One() + r
  {
    var m := f.One() + r;
    ScaleAtLeast(m, e - 1, 0);
    EncodeScaled(f, m, e - 1, 1);
    NextMultiple(e - 1, f.One());
  }

  lemma {:induction false} EncodeScaled(f: Format, m: nat, k: nat, e: nat)
    requires f.One() <= m < 2 * f.One() && e >= 1
    ensures EncodeFrom(f, Scale(m, k), e) == (e + k - 1) * f.One() + m
  {
    if k != 0 {
      ScaleAtLeast(m, k - 1, 0);
      assert Scale(m, k) / 2 == Scale(m, k - 1);
      EncodeScaled(f, m, k - 1, e + 1);
    }
  }

  /** A number that fits is the magnitude of its encoding. */
  lemma {:induction false} MagEncode(f: Format, v: nat, m: nat, e: nat)
    requires Fits(f, v, m, e)
    ensures Mag(f, Encode(f, v)) == v
    decreases e
  {
    if v < f.One() {
      Fields(f, v, 0, v);
    } else if m >= f.One() {
      PackNormal(f, e + 1, m);
      ScaleIsProduct(m, e);
      EncodeMag(f, e * f.One() + m);
    } else {
      // move the leading bit up: v >= One forces e >= 1
      assert e >= 1;
      ScaleAdd(m, 1, e - 1);
      assert Scale(m, 1) == 2 * Scale(m, 0);
      MagEncode(f, v, 2 * m, e - 1);
    }
  }
}
