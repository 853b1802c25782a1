/** openlibm/src/e_fmod.c and openlibm/src/e_fmodl.c: the exact remainder over two words.

    The two files are the same program at two word widths, so it is written once over a
    Layout and instantiated by DOUBLE and QUAD; the constants of the source are the values of
    the Layout's functions. */
module Fmod {
  import opened Bits
  import opened Ieee754
  import opened WordPairs
  import opened ExactRemainder

  /** w bits per word, h fraction bits in the high word. */
  datatype Layout = Layout(w: nat, h: nat, bias: nat)
  {
    function Fmt(): Format { Format(h + w, bias) }
    /** 0x00100000: the implicit bit in the high word. */
    function Implicit(): nat { Pow2(h) }
    /** 0x7ff00000: the high word of infinity. */
    function InfHigh(): nat { Scale(2 * bias + 1, h) }
    /** 0x80000000: the sign bit. */
    function SignBit(): nat requires w >= 1 { Pow2(w - 1) }
    /** -1022: the exponent of the smallest normal number. */
    function Emin(): int { 1 - bias }

    /** The exponent field fills the high word between the fraction and the sign. */
    ghost predicate Valid() {
      && h >= 1 && h + 3 <= w
      && bias >= h + w + 4
      && 2 * bias + 2 == Pow2(w - 1 - h)
    }
  }

  const DOUBLE := Layout(32, 20, 1023)
  const QUAD := Layout(64, 48, 16383)

  lemma LayoutsValid()
    ensures DOUBLE.Valid() && QUAD.Valid()
    ensures DOUBLE.Fmt() == BINARY64 && QUAD.Fmt() == BINARY128
  {
    Pow2Constants();
    Pow2Add(11, 4);
  }

  /** The datum of a word pair, sign bit removed. */
  function Datum(L: Layout, hi: nat, lo: nat): nat
    requires L.w >= 1
  {
    hi % L.SignBit() * Pow2(L.w) + lo
  }

  /** The value of `hx & 0x80000000`. */
  function SignOf(L: Layout, hi: nat): nat
    requires L.w >= 1
  {
    Shr(hi, L.w - 1) * L.SignBit()
  }

  // ---- bit lengths ----

  lemma {:induction false} ScaleRange(v: nat, a: nat, s: nat)
    requires Pow2(a) <= v < Pow2(a + 1)
    ensures Pow2(a + s) <= Scale(v, s) < Pow2(a + s + 1)
  {
    if s != 0 { ScaleRange(v, a, s - 1); }
  }

  lemma {:induction false} UnscaleRange(v: nat, a: nat, s: nat)
    requires Pow2(a + s) <= Scale(v, s) < Pow2(a + s + 1)
    ensures Pow2(a) <= v < Pow2(a + 1)
  {
    if s != 0 { UnscaleRange(v, a, s - 1); }
  }

  lemma {:induction false} ScaleBig(v: nat, a: nat, s: nat)
    requires Pow2(a) <= v
    ensures Pow2(a + s) <= Scale(v, s)
  {
    if s != 0 { ScaleBig(v, a, s - 1); }
  }

  /** The bit length of a pair whose high word is not zero. */
  lemma PairRange(w: nat, hi: nat, lo: nat, a: nat)
    requires lo < Pow2(w) && Pow2(a) <= hi < Pow2(a + 1)
    ensures Pow2(a + w) <= Join(w, hi, lo) < Pow2(a + w + 1)
  {
    Pow2Add(a, w);
    Pow2Add(a + 1, w);
    CompareHigh(w, hi, lo, Pow2(a));
    CompareHigh(w, hi, lo, Pow2(a + 1));
  }

  /** The high word of a significand against the implicit bit. */
  lemma HighWord(L: Layout, hi: int, lo: nat, c: nat)
    requires lo < Pow2(L.w)
    ensures hi < c * L.Implicit() <==> Join(L.w, hi, lo) < c * L.Fmt().One()
  {
    CompareHigh(L.w, hi, lo, c * L.Implicit());
    Pow2Add(L.h, L.w);
    MulAssociates(c, L.Implicit(), Pow2(L.w));
  }

  // ---- ilogb ----

  /** What the two ilogb computations establish: the exponent of a normal number's field, or the
      shift that brings a subnormal's leading bit to the implicit position. */
  ghost predicate IsLog(L: Layout, hi: nat, lo: nat, ix: int) {
    if hi >= L.Implicit() then ix == Shr(hi, L.h) - L.bias
    else
      && ix < L.Emin()
      && L.Fmt().One() <= Scale(Join(L.w, hi, lo), L.Emin() - ix) < 2 * L.Fmt().One()
  }

  /** e_fmod.c line 54: the loop on the low word. */
  method LogLow(L: Layout, lo: nat) returns (ix: int)
    requires L.Valid() && 0 < lo < Pow2(L.w)
    ensures IsLog(L, 0, lo, ix)
  {
    var i := lo;
    ghost var s := 0;
    ix := L.Emin() - (L.h + 1);
    while 0 < i < L.SignBit()
      invariant i == Scale(lo, s) && 0 < i < Pow2(L.w) && ix == L.Emin() - (L.h + 1) - s
      decreases Pow2(L.w) - i
    {
      ix, i, s := ix - 1, 2 * i, s + 1;
    }
    ScaleAdd(lo, s, L.h + 1);
    ScaleRange(i, L.w - 1, L.h + 1);
  }

  /** e_fmod.c line 56: the loop on the high word. */
  method LogHigh(L: Layout, hi: nat, lo: nat) returns (ix: int)
    requires L.Valid() && lo < Pow2(L.w) && 0 < hi < L.Implicit()
    ensures IsLog(L, hi, lo, ix)
  {
    StartBelowSign(L, hi);
    var i := Scale(hi, L.w - 1 - L.h);
    ghost var s := 0;
    ix := L.Emin();
    while 0 < i < L.SignBit()
      invariant i == Scale(hi, L.w - 1 - L.h + s) && 0 < i < Pow2(L.w) && ix == L.Emin() - s
      invariant s == 0 ==> i < L.SignBit()
      decreases Pow2(L.w) - i
    {
      ix, i, s := ix - 1, 2 * i, s + 1;
    }
    HighLength(L, hi, lo, s);
  }

  method Ilogb(L: Layout, hi: nat, lo: nat) returns (ix: int)
    requires L.Valid() && lo < Pow2(L.w) && Join(L.w, hi, lo) > 0 && hi < L.InfHigh()
    ensures IsLog(L, hi, lo, ix) && ix <= L.bias
  {
    FiniteExponent(L, hi);
    if hi < L.Implicit() {
      if hi == 0 { ix := LogLow(L, lo); } else { ix := LogHigh(L, hi, lo); }
    } else {
      ix := Shr(hi, L.h) - L.bias;
    }
  }

  lemma FiniteExponent(L: Layout, hi: nat)
    requires hi < L.InfHigh()
    ensures Shr(hi, L.h) <= 2 * L.bias
  {
    ScaleIsProduct(2 * L.bias + 1, L.h);
    var rest := ShrRest(hi, L.h);
    var e := Shr(hi, L.h);
    if e >= 2 * L.bias + 1 {
      MulAtLeast(e - (2 * L.bias + 1) + 1, L.Implicit());
      Distribute(e - (2 * L.bias + 1), 2 * L.bias + 1, L.Implicit());
      Distribute(e - (2 * L.bias + 1), 1, L.Implicit());
    }
  }

  lemma StartBelowSign(L: Layout, hi: nat)
    requires L.Valid() && 0 < hi < L.Implicit()
    ensures 0 < Scale(hi, L.w - 1 - L.h) < L.SignBit()
  {
    ScaleAtLeast(hi, L.w - 1 - L.h, 0);
    ScaleStrict(hi, L.Implicit(), L.w - 1 - L.h);
    ScaleIsProduct(L.Implicit(), L.w - 1 - L.h);
    Pow2Add(L.h, L.w - 1 - L.h);
  }

  lemma HighLength(L: Layout, hi: nat, lo: nat, s: nat)
    requires L.Valid() && hi > 0 && lo < Pow2(L.w)
    requires L.SignBit() <= Scale(hi, L.w - 1 - L.h + s) < Pow2(L.w)
    ensures L.Fmt().One() <= Scale(Join(L.w, hi, lo), s) < 2 * L.Fmt().One()
  {
    var k := L.w - 1 - L.h + s;
    if s > L.h { ScaleAtLeast(hi, k, L.w); }
    var a := L.h - s;
    UnscaleRange(hi, a, k);
    PairRange(L.w, hi, lo, a);
    ScaleRange(Join(L.w, hi, lo), a + L.w, s);
  }

  // ---- alignment ----

  method Align(L: Layout, hi: nat, lo: nat, ix: int) returns (hx: nat, lx: nat)
    requires L.Valid() && lo < Pow2(L.w) && hi < L.InfHigh() && Join(L.w, hi, lo) > 0
    requires IsLog(L, hi, lo, ix)
    ensures lx < Pow2(L.w)
    ensures Normalized(L.Fmt(), Mag(L.Fmt(), Join(L.w, hi, lo)), Join(L.w, hx, lx), ix + L.bias)
  {
    if ix >= L.Emin() {
      NormalPair(L, hi, lo, ix);
      hx, lx := Or(L.Implicit(), hi % L.Implicit()), lo;
    } else {
      var n: nat := L.Emin() - ix;
      SubnormalPair(L, hi, lo, n);
      if n <= L.w - 1 {
        ShiftPair(L.w, hi, lo, n);
        hx, lx := Or(Scale(hi, n), Shr(lo, L.w - n)), Scale(lo, n) % Pow2(L.w);
      } else {
        LongShift(L, hi, lo, n);
        hx, lx := Scale(lo, n - L.w), 0;
      }
    }
  }

  lemma NormalPair(L: Layout, hi: nat, lo: nat, ix: int)
    requires L.Valid() && lo < Pow2(L.w) && IsLog(L, hi, lo, ix) && ix >= L.Emin()
    ensures Or(L.Implicit(), hi % L.Implicit()) == L.Implicit() + hi % L.Implicit()
    ensures Normalized(L.Fmt(), Mag(L.Fmt(), Join(L.w, hi, lo)),
                       Join(L.w, L.Implicit() + hi % L.Implicit(), lo), ix + L.bias)
  {
    OrDisjoint(L.Implicit(), hi % L.Implicit(), L.h);
    var e := Shr(hi, L.h);
    SplitHigh(L, hi, lo);
    Fields(L.Fmt(), Join(L.w, hi, lo), e, Join(L.w, hi % L.Implicit(), lo));
    NormalFields(L.Fmt(), Join(L.w, hi, lo));
    Pow2Add(L.h, L.w);
    Distribute(L.Implicit(), hi % L.Implicit(), Pow2(L.w));
  }

  /** The fields of a pair: the exponent is in the high word. */
  lemma SplitHigh(L: Layout, hi: nat, lo: nat)
    requires lo < Pow2(L.w)
    ensures Join(L.w, hi, lo) == Shr(hi, L.h) * L.Fmt().One() + Join(L.w, hi % L.Implicit(), lo)
    ensures 0 <= Join(L.w, hi % L.Implicit(), lo) < L.Fmt().One()
    ensures hi >= L.Implicit() <==> Shr(hi, L.h) >= 1
  {
    var rest := ShrRest(hi, L.h);
    var e, u, b := Shr(hi, L.h), L.Implicit(), Pow2(L.w);
    DivModUnique(hi, u, e, rest);
    Pow2Add(L.h, L.w);
    Distribute(e * u, rest, b);
    MulAssociates(e, u, b);
    HighWord(L, rest, lo, 1);
    SignOfPair(L.w, rest, lo);
    MulAtLeast(e, u);
  }

  lemma SubnormalPair(L: Layout, hi: nat, lo: nat, n: nat)
    requires L.Valid() && lo < Pow2(L.w) && IsLog(L, hi, lo, L.Emin() - n) && n > 0 && Join(L.w, hi, lo) > 0
    requires hi < L.Implicit() || Shr(hi, L.h) == 0
    ensures Normalized(L.Fmt(), Mag(L.Fmt(), Join(L.w, hi, lo)), Scale(Join(L.w, hi, lo), n), 1 - n)
  {
    SplitHigh(L, hi, lo);
    HighWord(L, hi, lo, 1);
    Fields(L.Fmt(), Join(L.w, hi, lo), 0, Join(L.w, hi, lo));
    SubnormalShift(L.Fmt(), Join(L.w, hi, lo), n);
  }

  /** A shift by a whole word or more only happens when the high word is zero. */
  lemma LongShift(L: Layout, hi: nat, lo: nat, n: nat)
    requires L.Valid() && lo < Pow2(L.w) && n >= L.w
    requires Scale(Join(L.w, hi, lo), n) < 2 * L.Fmt().One()
    ensures hi == 0 && Join(L.w, Scale(lo, n - L.w), 0) == Scale(Join(L.w, hi, lo), n)
  {
    if hi > 0 {
      CompareHigh(L.w, hi, lo, 1);
      ScaleBig(Join(L.w, hi, lo), L.w, n);
      Pow2Monotone(L.h + L.w + 1, L.w + n);
    }
    ScaleAdd(lo, n - L.w, L.w);
    ScaleIsProduct(Scale(lo, n - L.w), L.w);
  }

  // ---- shift and subtract ----

  /** hx fits a signed word. */
  ghost predicate SignedFits(L: Layout, hx: int)
    requires L.w >= 1
  {
    0 <= hx + L.SignBit() && hx < L.SignBit()
  }

  /** Below four units of the implicit bit the high word is far below the sign bit. */
  lemma HighBelow(L: Layout, hx: nat, lx: nat)
    requires L.Valid() && lx < Pow2(L.w) && Join(L.w, hx, lx) < 4 * L.Fmt().One()
    ensures hx < 4 * L.Implicit() <= L.SignBit()
  {
    HighWord(L, hx, lx, 4);
    Pow2Add(L.h, 2);
    Pow2Monotone(L.h + 2, L.w - 1);
  }

  /** hz, lz = {hx,lx} - {hy,ly}: no signed overflow in hx - hy, nor in taking the borrow off. */
  method Difference(L: Layout, hx: nat, lx: nat, hy: nat, ly: nat) returns (hz: int, lz: nat)
    requires L.Valid() && lx < Pow2(L.w) && ly < Pow2(L.w)
    requires Join(L.w, hx, lx) < 4 * L.Fmt().One() && Join(L.w, hy, ly) < 4 * L.Fmt().One()
    ensures lz < Pow2(L.w) && Join(L.w, hz, lz) == Join(L.w, hx, lx) - Join(L.w, hy, ly)
    ensures hz < 0 <==> Join(L.w, hx, lx) < Join(L.w, hy, ly)
    ensures SignedFits(L, hx - hy) && SignedFits(L, hz)
  {
    HighBelow(L, hx, lx);
    HighBelow(L, hy, ly);
    SubtractPair(L.w, hx, lx, hy, ly);
    hz, lz := hx - hy, (lx - ly) % Pow2(L.w);
    if lx < ly { hz := hz - 1; }
  }

  /** Doubling a pair below two units of the implicit bit: no signed overflow. */
  method Twice(L: Layout, hx: nat, lx: nat) returns (hz: nat, lz: nat)
    requires L.Valid() && lx < Pow2(L.w) && Join(L.w, hx, lx) < 2 * L.Fmt().One()
    ensures lz < Pow2(L.w) && Join(L.w, hz, lz) == 2 * Join(L.w, hx, lx)
    ensures SignedFits(L, hx + hx) && SignedFits(L, hz)
  {
    DoublePair(L.w, hx, lx);
    hz, lz := hx + hx + Shr(lx, L.w - 1), (lx + lx) % Pow2(L.w);
    HighBelow(L, hz, lz);
  }

  lemma PairZero(L: Layout, hi: nat, lo: nat)
    requires lo < Pow2(L.w)
    ensures Or(hi, lo) == 0 <==> Join(L.w, hi, lo) == 0
  {
    OrZero(hi, lo);
    CompareHigh(L.w, hi, lo, 1);
  }

  /** The fixed-point loop, with its early exit when the difference is zero. */
  method Reduce(L: Layout, x0: nat, x1: nat, hy: nat, ly: nat, d: nat) returns (zero: bool, hx: nat, lx: nat)
    requires L.Valid() && x1 < Pow2(L.w) && ly < Pow2(L.w)
    requires L.Fmt().One() <= Join(L.w, x0, x1) < 2 * L.Fmt().One()
    requires L.Fmt().One() <= Join(L.w, hy, ly) < 2 * L.Fmt().One()
    ensures lx < Pow2(L.w) && Join(L.w, hx, lx) < Join(L.w, hy, ly)
    ensures Join(L.w, hx, lx) == Scale(Join(L.w, x0, x1), d) % Join(L.w, hy, ly)
    ensures zero ==> hx == lx == 0
  {
    ghost var mx, my := Join(L.w, x0, x1), Join(L.w, hy, ly);
    var n, hz, lz := d, 0, 0;
    ghost var k := 0;
    hx, lx, zero := x0, x1, false;
    while n != 0
      invariant 0 <= n && n + k == d && lx < Pow2(L.w)
      invariant Join(L.w, hx, lx) < 2 * my && Join(L.w, hx, lx) % my == Scale(mx, k) % my
      decreases n
    {
      n := n - 1;
      ReduceStep(Join(L.w, hx, lx), mx, k, my);
      hz, lz := Difference(L, hx, lx, hy, ly);
      if hz < 0 {
        hx, lx := Twice(L, hx, lx);
      } else {
        PairZero(L, hz, lz);
        if Or(hz, lz) == 0 {
          StaysZero(mx, k, d, my);
          return true, 0, 0;
        }
        hx, lx := Twice(L, hz, lz);
      }
      k := k + 1;
    }
    ReduceLast(Join(L.w, hx, lx), my);
    hz, lz := Difference(L, hx, lx, hy, ly);
    if hz >= 0 { hx, lx := hz, lz; }
  }

  // ---- conversion back ----

  /** e_fmod.c lines 112-115. */
  method Renormalise(L: Layout, x0: nat, x1: nat, y: int, ghost mag: nat) returns (hx: nat, lx: nat, iy: int)
    requires L.Valid() && x1 < Pow2(L.w) && 0 < Join(L.w, x0, x1) < 2 * L.Fmt().One()
    requires SameValue(L.Fmt(), mag, Join(L.w, x0, x1), y + L.bias)
    ensures lx < Pow2(L.w) && iy <= y
    ensures Normalized(L.Fmt(), mag, Join(L.w, hx, lx), iy + L.bias)
  {
    hx, lx, iy := x0, x1, y;
    HighWord(L, hx, lx, 1);
    while hx < L.Implicit()
      invariant lx < Pow2(L.w) && 0 < Join(L.w, hx, lx) < 2 * L.Fmt().One() && iy <= y
      invariant hx < L.Implicit() <==> Join(L.w, hx, lx) < L.Fmt().One()
      invariant SameValue(L.Fmt(), mag, Join(L.w, hx, lx), iy + L.bias)
      decreases 2 * L.Fmt().One() - Join(L.w, hx, lx)
    {
      NormaliseStep(L.Fmt(), mag, Join(L.w, hx, lx), iy + L.bias);
      hx, lx := Twice(L, hx, lx);
      iy := iy - 1;
      HighWord(L, hx, lx, 1);
    }
  }

  /** The magnitude words of the result, before the sign is set. */
  ghost predicate Encodes(L: Layout, hi: nat, lo: nat, mag: nat)
    requires L.w >= 1
  {
    && hi < L.SignBit() && lo < Pow2(L.w)
    && Join(L.w, hi, lo) < L.Fmt().Inf()
    && Mag(L.Fmt(), Join(L.w, hi, lo)) == mag
  }

  method PackNormalWords(L: Layout, x0: nat, x1: nat, iy: int, ghost mag: nat) returns (hx: nat, lx: nat)
    requires L.Valid() && x1 < Pow2(L.w) && L.Emin() <= iy <= L.bias
    requires Normalized(L.Fmt(), mag, Join(L.w, x0, x1), iy + L.bias)
    ensures Encodes(L, hx, lx, mag)
  {
    NormalEncodes(L, x0, x1, iy + L.bias, mag);
    hx, lx := Or(x0 - L.Implicit(), Scale(iy + L.bias, L.h)), x1;
  }

  lemma NormalEncodes(L: Layout, hi: nat, lo: nat, e: nat, mag: nat)
    requires L.Valid() && lo < Pow2(L.w) && 1 <= e <= 2 * L.bias
    requires Normalized(L.Fmt(), mag, Join(L.w, hi, lo), e)
    ensures hi >= L.Implicit() && Encodes(L, Or(hi - L.Implicit(), Scale(e, L.h)), lo, mag)
  {
    NormalHighWord(L, hi, lo, e);
    EncodeNormal(L.Fmt(), mag, Join(L.w, hi, lo), e);
  }

  /** e_fmod.c line 117: the exponent field is put above the fraction. */
  lemma NormalHighWord(L: Layout, hi: nat, lo: nat, e: nat)
    requires L.Valid() && lo < Pow2(L.w) && 1 <= e <= 2 * L.bias
    requires L.Fmt().One() <= Join(L.w, hi, lo) < 2 * L.Fmt().One()
    ensures hi >= L.Implicit()
    ensures var hx := Or(hi - L.Implicit(), Scale(e, L.h));
            && hx < L.SignBit()
            && Join(L.w, hx, lo) == (e - 1) * L.Fmt().One() + Join(L.w, hi, lo)
            && Join(L.w, hx, lo) < L.Fmt().Inf()
  {
    var u, b := L.Implicit(), Pow2(L.w);
    HighWord(L, hi, lo, 1);
    HighWord(L, hi, lo, 2);
    ExponentFits(L, e);
    OrExponent(L, hi - u, e);
    var hx := hi - u + e * u;
    Pow2Add(L.h, L.w);
    HighWord(L, hx, lo, 2 * L.bias + 1);
    InfinityEncoding(L.Fmt());
    ShiftExponent(hi, u, b, e);
  }

  lemma OrExponent(L: Layout, m: nat, e: nat)
    requires m < L.Implicit()
    ensures Or(m, Scale(e, L.h)) == m + e * L.Implicit()
  {
    ScaleIsProduct(e, L.h);
    ScaleMultiple(e, L.h);
    OrCommutes(m, Scale(e, L.h));
    OrDisjoint(Scale(e, L.h), m, L.h);
  }

  lemma ShiftExponent(hi: int, u: int, b: int, e: int)
    ensures (hi - u + e * u) * b == (e - 1) * (u * b) + hi * b
  {
    Distribute(hi, (e - 1) * u, b);
    assert (e - 1) * u == e * u - u;
    MulAssociates(e - 1, u, b);
  }

  lemma ExponentFits(L: Layout, e: nat)
    requires L.Valid() && e <= 2 * L.bias
    ensures e * L.Implicit() + L.Implicit() <= (2 * L.bias + 1) * L.Implicit() < L.SignBit()
  {
    var u := L.Implicit();
    MulAtLeast(2 * L.bias - e + 1, u);
    Distribute(2 * L.bias - e, e, u);
    Distribute(2 * L.bias - e, 1, u);
    Distribute(2 * L.bias, 1, u);
    Distribute(2 * L.bias + 1, 1, u);
    Pow2Add(L.w - 1 - L.h, L.h);
  }

  /** The subnormal output branches: three ways to shift the pair right by n = emin - iy. */
  method PackSubnormalWords(L: Layout, x0: nat, x1: nat, iy: int, ghost mag: nat) returns (hx: nat, lx: nat)
    requires L.Valid() && x1 < Pow2(L.w) && iy < L.Emin()
    requires Normalized(L.Fmt(), mag, Join(L.w, x0, x1), iy + L.bias)
    ensures Encodes(L, hx, lx, mag)
  {
    var n: nat := L.Emin() - iy;
    EncodeSubnormal(L.Fmt(), mag, Join(L.w, x0, x1), iy + L.bias);
    HighWord(L, x0, x1, 2);
    if n <= L.h {
      ShiftPairRight(L.w, x0, x1, n);
      hx, lx := Shr(x0, n), Or(Shr(x1, n), Scale(x0, L.w - n) % Pow2(L.w));
    } else if n <= L.w - 1 {
      ShiftPairRight(L.w, x0, x1, n);
      HighShiftedOut(L, x0, n);
      hx, lx := 0, Or(Scale(x0, L.w - n) % Pow2(L.w), Shr(x1, n));
    } else {
      BothShiftedOut(L, x0, x1, n);
      hx, lx := 0, Shr(x0, n - L.w);
    }
    SubnormalEncodes(L, hx, lx, mag);
  }

  lemma HighShiftedOut(L: Layout, x0: nat, n: nat)
    requires x0 < Pow2(L.h + 1) && n > L.h
    ensures Shr(x0, n) == 0
  {
    Pow2Monotone(L.h + 1, n);
    ShrUnique(x0, n, 0, x0);
  }

  lemma BothShiftedOut(L: Layout, x0: nat, x1: nat, n: nat)
    requires L.Valid() && x0 < Pow2(L.h + 1) && x1 < Pow2(L.w) && n >= L.w
    ensures Shr(Join(L.w, x0, x1), n) == Shr(x0, n - L.w) < Pow2(L.w)
  {
    HighStays(L.w, x0, n - L.w, L.h + 1);
    LowShiftedOut(L.w, x0, x1, n - L.w);
  }

  lemma HighStays(w: nat, x: nat, k: nat, j: nat)
    requires x < Pow2(j) && j <= w
    ensures Shr(x, k) < Pow2(w)
  {
    ShrAtMost(x, k);
    Pow2Monotone(j, w);
  }

  lemma LowShiftedOut(w: nat, x0: nat, x1: nat, k: nat)
    requires x1 < Pow2(w)
    ensures Shr(Join(w, x0, x1), w + k) == Shr(x0, k)
  {
    var pair := Join(w, x0, x1);
    ShrUnique(pair, w, x0, x1);
    ShrAdd(pair, w, k);
  }

  lemma SubnormalEncodes(L: Layout, hx: nat, lx: nat, mag: nat)
    requires L.Valid() && lx < Pow2(L.w) && Join(L.w, hx, lx) == mag < L.Fmt().One()
    requires Mag(L.Fmt(), mag) == mag
    ensures Encodes(L, hx, lx, mag)
  {
    HighWord(L, hx, lx, 1);
    Pow2Monotone(L.h, L.w - 1);
    MulAtLeast(2 * L.bias + 1, L.Fmt().One());
    InfinityEncoding(L.Fmt());
  }

  // ---- special operands ----

  /** The top bit of ly or minus ly is one exactly when ly is not zero. */
  lemma NonZeroBit(w: nat, ly: nat)
    requires w >= 1 && ly < Pow2(w)
    ensures Shr(Or(ly, (0 - ly) % Pow2(w)), w - 1) == if ly == 0 then 0 else 1
  {
    var neg := (0 - ly) % Pow2(w);
    ModOnce(0 - ly, Pow2(w));
    OrShift(ly, neg, w - 1);
    TopBit(w, ly);
    TopBit(w, neg);
  }

  lemma TopBit(w: nat, x: nat)
    requires w >= 1 && x < Pow2(w)
    ensures Shr(x, w - 1) == if x < Pow2(w - 1) then 0 else 1
  {
    if x < Pow2(w - 1) { ShrUnique(x, w - 1, 0, x); } else { ShrUnique(x, w - 1, 1, x - Pow2(w - 1)); }
  }

  /** e_fmod.c line 43 recognises exactly the NaNs. */
  lemma NanTest(L: Layout, hy: nat, ly: nat)
    requires L.Valid() && ly < Pow2(L.w)
    ensures Or(hy, Shr(Or(ly, (0 - ly) % Pow2(L.w)), L.w - 1)) > L.InfHigh()
       <==> Join(L.w, hy, ly) > L.Fmt().Inf()
  {
    NonZeroBit(L.w, ly);
    InfinityPair(L);
    InfHighEven(L);
    CompareHigh(L.w, hy, ly, L.InfHigh());
    CompareHigh(L.w, hy, ly, L.InfHigh() + 1);
    Distribute(L.InfHigh(), 1, Pow2(L.w));
    OrOne(hy);
  }

  lemma OrOne(a: nat)
    ensures Or(a, 1) == if a % 2 == 0 then a + 1 else a
  {
  }

  lemma InfinityPair(L: Layout)
    ensures L.Fmt().Inf() == L.InfHigh() * Pow2(L.w)
  {
    ScaleAdd(2 * L.bias + 1, L.h, L.w);
    ScaleIsProduct(L.InfHigh(), L.w);
  }

  lemma InfHighEven(L: Layout)
    requires L.Valid()
    ensures L.InfHigh() % 2 == 0
  {
  }

  /** Setting the sign bit of a magnitude. */
  lemma WithSign(L: Layout, hi: nat, lo: nat, sx: nat)
    requires L.Valid() && hi < L.SignBit() && lo < Pow2(L.w) && (sx == 0 || sx == L.SignBit())
    ensures Or(hi, sx) == hi + sx < Pow2(L.w) && Datum(L, Or(hi, sx), lo) == Join(L.w, hi, lo)
    ensures SignOf(L, Or(hi, sx)) == sx
  {
    OrCommutes(hi, sx);
    ScaleMultiple(1, L.w - 1);
    ScaleIsProduct(1, L.w - 1);
    OrDisjoint(sx, hi, L.w - 1);
    var c := if sx == 0 then 0 else 1;
    DivModUnique(hi + sx, L.SignBit(), c, hi);
    ShrUnique(hi + sx, L.w - 1, c, hi);
  }

  lemma SplitSign(L: Layout, hi: nat)
    requires L.Valid() && hi < Pow2(L.w)
    ensures SignOf(L, hi) == 0 || SignOf(L, hi) == L.SignBit()
    ensures hi == SignOf(L, hi) + hi % L.SignBit() && hi % L.SignBit() < L.SignBit()
  {
    TopBit(L.w, hi);
    var c := Shr(hi, L.w - 1);
    DivModUnique(hi, L.SignBit(), c, hi - c * L.SignBit());
  }

  // ---- the whole routine ----

  /** r is the exact remainder: sign of x, magnitude |x| mod |y|. */
  ghost predicate IsRemainder(L: Layout, x: (nat, nat), y: (nat, nat), r: Returned<(nat, nat)>)
    requires L.w >= 1 && Mag(L.Fmt(), Datum(L, y.0, y.1)) > 0
  {
    && r.Number? && r.bits.0 < Pow2(L.w) && r.bits.1 < Pow2(L.w)
    && SignOf(L, r.bits.0) == SignOf(L, x.0)
    && Datum(L, r.bits.0, r.bits.1) < L.Fmt().Inf()
    && Mag(L.Fmt(), Datum(L, r.bits.0, r.bits.1))
       == Modulo(Mag(L.Fmt(), Datum(L, x.0, x.1)), Mag(L.Fmt(), Datum(L, y.0, y.1)))
  }

  lemma Operands(L: Layout, x0: nat, x1: nat, y0: nat, y1: nat, mx: nat, ix: int, my: nat, iy: int)
    requires L.Valid() && 0 <= Join(L.w, y0, y1) < Join(L.w, x0, x1)
    requires Normalized(L.Fmt(), Mag(L.Fmt(), Join(L.w, x0, x1)), mx, ix + L.bias)
    requires Normalized(L.Fmt(), Mag(L.Fmt(), Join(L.w, y0, y1)), my, iy + L.bias)
    ensures iy <= ix && Mag(L.Fmt(), Join(L.w, y0, y1)) > 0
  {
    var f, X, Y := L.Fmt(), Mag(L.Fmt(), Join(L.w, x0, x1)), Mag(L.Fmt(), Join(L.w, y0, y1));
    MagMonotone(f, Join(L.w, y0, y1), Join(L.w, x0, x1));
    NormalizedPositive(f, Y, my, iy + L.bias);
    if ix < iy { NormalizedOrder(f, X, mx, ix + L.bias, Y, my, iy + L.bias); }
  }

  /** Everything after the reduction: zero, normal and subnormal results. */
  method ConvertBack(L: Layout, x0: nat, x1: nat, y: int, ghost mag: nat) returns (hx: nat, lx: nat)
    requires L.Valid() && x1 < Pow2(L.w) && Join(L.w, x0, x1) < 2 * L.Fmt().One() && y <= L.bias
    requires SameValue(L.Fmt(), mag, Join(L.w, x0, x1), y + L.bias)
    ensures Encodes(L, hx, lx, mag)
  {
    PairZero(L, x0, x1);
    if Or(x0, x1) == 0 {
      ZeroValue(L.Fmt(), mag, y + L.bias);
      ZeroEncodes(L);
      return 0, 0;
    }
    var iy: int;
    hx, lx, iy := Renormalise(L, x0, x1, y, mag);
    if iy >= L.Emin() {
      hx, lx := PackNormalWords(L, hx, lx, iy, mag);
    } else {
      hx, lx := PackSubnormalWords(L, hx, lx, iy, mag);
    }
  }

  lemma ZeroEncodes(L: Layout)
    requires L.Valid()
    ensures Encodes(L, 0, 0, 0)
  {
    Fields(L.Fmt(), 0, 0, 0);
    SubnormalEncodes(L, 0, 0, 0);
  }

  /** From |x| > |y| > 0, both finite: alignment, reduction and conversion back. */
  method FmodFinite(L: Layout, x0: nat, x1: nat, y0: nat, y1: nat) returns (hx: nat, lx: nat)
    requires L.Valid() && x1 < Pow2(L.w) && y1 < Pow2(L.w)
    requires 0 < Join(L.w, y0, y1) < Join(L.w, x0, x1) && x0 < L.InfHigh() && y0 < L.InfHigh()
    ensures Mag(L.Fmt(), Join(L.w, y0, y1)) > 0
    ensures Encodes(L, hx, lx, Modulo(Mag(L.Fmt(), Join(L.w, x0, x1)), Mag(L.Fmt(), Join(L.w, y0, y1))))
  {
    ghost var X, Y := Mag(L.Fmt(), Join(L.w, x0, x1)), Mag(L.Fmt(), Join(L.w, y0, y1));
    var ix := Ilogb(L, x0, x1);
    var iy := Ilogb(L, y0, y1);
    var hy: nat, ly: nat;
    hx, lx := Align(L, x0, x1, ix);
    hy, ly := Align(L, y0, y1, iy);
    ghost var mx, my := Join(L.w, hx, lx), Join(L.w, hy, ly);
    Operands(L, x0, x1, y0, y1, mx, ix, my, iy);
    RemainderValue(L.Fmt(), X, mx, ix + L.bias, Y, my, iy + L.bias);
    ModuloIsRemainder(X, Y);
    ghost var rest := Modulo(X, Y);
    var zero: bool;
    zero, hx, lx := Reduce(L, hx, lx, hy, ly, ix - iy);
    if zero {
      ZeroValue(L.Fmt(), rest, iy + L.bias);
      ZeroEncodes(L);
      return;
    }
    hx, lx := ConvertBack(L, hx, lx, iy, rest);
  }

  /** |x| < |y|: the remainder is x itself. */
  lemma SmallerOperand(L: Layout, b: nat, c: nat)
    requires b < c
    ensures Mag(L.Fmt(), c) > 0 && Modulo(Mag(L.Fmt(), b), Mag(L.Fmt(), c)) == Mag(L.Fmt(), b)
  {
    MagMonotone(L.Fmt(), b, c);
  }

  lemma EqualOperands(L: Layout, b: nat)
    requires b > 0
    ensures Mag(L.Fmt(), b) > 0 && Modulo(Mag(L.Fmt(), b), Mag(L.Fmt(), b)) == 0
  {
    MagMonotone(L.Fmt(), 0, b);
  }

  /** Ordering two pairs by high word, then low word. */
  lemma PairOrder(w: nat, hx: nat, lx: nat, hy: nat, ly: nat)
    requires lx < Pow2(w) && ly < Pow2(w)
    ensures Join(w, hx, lx) < Join(w, hy, ly) <==> hx < hy || (hx == hy && lx < ly)
    ensures Join(w, hx, lx) == Join(w, hy, ly) <==> hx == hy && lx == ly
  {
    if hx < hy { HigherWord(w, hx, lx, hy, ly); }
    if hy < hx { HigherWord(w, hy, ly, hx, lx); }
  }

  lemma HigherWord(w: nat, hx: nat, lx: nat, hy: nat, ly: nat)
    requires lx < Pow2(w) && hx < hy
    ensures Join(w, hx, lx) < Join(w, hy, ly)
  {
    MulAtLeast(hy - hx, Pow2(w));
    assert hy * Pow2(w) == hx * Pow2(w) + (hy - hx) * Pow2(w);
  }

  /** Which operands make the result a NaN. */
  ghost predicate Invalid(L: Layout, x: nat, y: nat) {
    y == 0 || x >= L.Fmt().Inf() || y > L.Fmt().Inf()
  }

  method PurgeExceptions(L: Layout, hx: nat, lx: nat, hy: nat, ly: nat) returns (invalid: bool)
    requires L.Valid() && lx < Pow2(L.w) && ly < Pow2(L.w)
    ensures invalid <==> Invalid(L, Join(L.w, hx, lx), Join(L.w, hy, ly))
    ensures !invalid ==> hx < L.InfHigh()
  {
    PairZero(L, hy, ly);
    InfinityPair(L);
    CompareHigh(L.w, hx, lx, L.InfHigh());
    NanTest(L, hy, ly);
    invalid := Or(hy, ly) == 0
            || hx >= L.InfHigh()
            || Or(hy, Shr(Or(ly, (0 - ly) % Pow2(L.w)), L.w - 1)) > L.InfHigh();
  }

  /** The magnitude words for valid operands: the early returns, or the full reduction. */
  method FmodMagnitude(L: Layout, hx: nat, lx: nat, hy: nat, ly: nat) returns (hz: nat, lz: nat)
    requires L.Valid() && lx < Pow2(L.w) && ly < Pow2(L.w) && hx < L.SignBit()
    requires !Invalid(L, Join(L.w, hx, lx), Join(L.w, hy, ly)) && hx < L.InfHigh()
    ensures Mag(L.Fmt(), Join(L.w, hy, ly)) > 0
    ensures Encodes(L, hz, lz, Modulo(Mag(L.Fmt(), Join(L.w, hx, lx)), Mag(L.Fmt(), Join(L.w, hy, ly))))
  {
    PairOrder(L.w, hx, lx, hy, ly);
    if hx <= hy {
      if hx < hy || lx < ly {               // |x| < |y|: x
        SmallerResult(L, hx, lx, Join(L.w, hy, ly));
        return hx, lx;
      }
      if lx == ly {                         // |x| == |y|: x * 0
        EqualResult(L, Join(L.w, hx, lx));
        return 0, 0;
      }
    }
    hz, lz := FmodFinite(L, hx, lx, hy, ly);
  }

  lemma SmallerResult(L: Layout, hx: nat, lx: nat, c: nat)
    requires L.Valid() && lx < Pow2(L.w) && hx < L.SignBit() && Join(L.w, hx, lx) < c
    requires Join(L.w, hx, lx) < L.Fmt().Inf()
    ensures Mag(L.Fmt(), c) > 0
    ensures Encodes(L, hx, lx, Modulo(Mag(L.Fmt(), Join(L.w, hx, lx)), Mag(L.Fmt(), c)))
  {
    SmallerOperand(L, Join(L.w, hx, lx), c);
  }

  lemma EqualResult(L: Layout, b: nat)
    requires L.Valid() && b > 0
    ensures Mag(L.Fmt(), b) > 0 && Encodes(L, 0, 0, Modulo(Mag(L.Fmt(), b), Mag(L.Fmt(), b)))
  {
    EqualOperands(L, b);
    ZeroEncodes(L);
  }

  /** fmod (DOUBLE) and fmodl (QUAD), for all operands. */
  method Fmod(L: Layout, x: (nat, nat), y: (nat, nat)) returns (r: Returned<(nat, nat)>)
    requires L.Valid() && x.0 < Pow2(L.w) && x.1 < Pow2(L.w) && y.0 < Pow2(L.w) && y.1 < Pow2(L.w)
    ensures r == NaN <==> Invalid(L, Datum(L, x.0, x.1), Datum(L, y.0, y.1))
    ensures r != NaN ==> Mag(L.Fmt(), Datum(L, y.0, y.1)) > 0 && IsRemainder(L, x, y, r)
  {
    SplitSign(L, x.0);
    SplitSign(L, y.0);
    var sx, lx, ly := SignOf(L, x.0), x.1, y.1;
    var hx, hy := x.0 - sx, y.0 % L.SignBit();
    var invalid := PurgeExceptions(L, hx, lx, hy, ly);
    if invalid { return NaN; }
    hx, lx := FmodMagnitude(L, hx, lx, hy, ly);
    WithSign(L, hx, lx, sx);
    r := Number((Or(hx, sx), lx));
  }
}
