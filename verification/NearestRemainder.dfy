/** The remainder of section 5.3.1 of IEEE 754-2008 on magnitudes, and the halving step shared by
    e_remainder.c and e_remainderf.c. */
module NearestRemainder {
  import opened Bits
  import opened Ieee754
  import opened FloatArith
  import opened ExactRemainder

  /** r is x - n * p with n the integer nearest x / p, the even one when two are equally near. */
  ghost predicate NearestWith(x: nat, p: nat, r: int, n: nat) {
    && r == x - n * p
    && 0 <= 2 * r + p && 2 * r <= p
    && (2 * r == p || 2 * r + p == 0 ==> n % 2 == 0)
  }

  ghost predicate IsNearest(x: nat, p: nat, r: int) {
    exists n: nat :: NearestWith(x, p, r, n)
  }

  /** The two conditional subtractions on a dividend already reduced modulo 2p. */
  function Fold(x: nat, p: nat): int {
    if 2 * x <= p then x
    else if 2 * (x - p) < p then x - p
    else x - 2 * p
  }

  /** Reducing modulo 2p keeps the parity of the quotient, so folding gives the nearest remainder. */
  lemma FoldIsNearest(x: nat, p: nat)
    requires p >= 1
    ensures IsNearest(x, p, Remainder(x, p))
  {
    ModuloIsRemainder(x, 2 * p);
    var k, rest := x / (2 * p), x % (2 * p);
    assert x == k * (2 * p) + rest;
    MulDouble(k, p);
    MulAssociates(2, k, p);
    var n := if 2 * rest <= p then 2 * k else if 2 * (rest - p) < p then 2 * k + 1 else 2 * k + 2;
    assert (2 * k + 1) * p == 2 * k * p + p && (2 * k + 2) * p == 2 * k * p + 2 * p;
    assert NearestWith(x, p, Fold(rest, p), n);
  }

  /** The remainder of x by p, signed relative to x. */
  function Remainder(x: nat, p: nat): int
    requires p >= 1
  {
    Fold(Modulo(x, 2 * p), p)
  }

  /** There is only one nearest remainder. */
  lemma NearestUnique(x: nat, p: nat, r: int, s: int)
    requires p >= 1 && IsNearest(x, p, r) && IsNearest(x, p, s)
    ensures r == s
  {
    var m: nat :| NearestWith(x, p, r, m);
    var n: nat :| NearestWith(x, p, s, n);
    assert r - s == (n - m) * p;
    MulAtLeast(n - m, p);
    MulAtLeast(n - m - 1, p);
    MulAtLeast(n - m + 1, p);
    assert (n - m - 1) * p == (n - m) * p - p && (n - m + 1) * p == (n - m) * p + p;
  }

  lemma ExponentMonotone(f: Format, a: nat, b: nat)
    requires Mag(f, a) <= Mag(f, b)
    ensures a <= b && Exponent(f, a) <= Exponent(f, b)
  {
    if b < a { MagMonotone(f, b, a); }
    ShrMonotone(a, b, f.frac);
  }

  /** The exact value of a computed difference, either way round. */
  lemma SubtractExact(f: Format, a: int, b: int, m: nat, e: nat)
    requires Fits(f, if a >= b then a - b else b - a, m, e)
    ensures Subtract(f, a, b) == a - b
  {
    RoundExact(f, if a >= b then a - b else b - a, m, e);
  }

  lemma DoubleExact(f: Format, v: int, m: nat, e: nat)
    requires Fits(f, if v >= 0 then v else -v, m, e)
    ensures Add(f, v, v) == 2 * v && Fits(f, if v >= 0 then 2 * v else -(2 * v), m, e + 1)
  {
    RoundExact(f, if v >= 0 then 2 * v else -(2 * v), m, e + 1);
  }

  /** The first subtraction, for p/2 < x < 2p, is exact. */
  lemma FirstExact(f: Format, bx: nat, bp: nat) returns (m: nat, e: nat)
    requires Mag(f, bx) < 2 * Mag(f, bp) && Mag(f, bp) < 2 * Mag(f, bx)
    ensures Subtract(f, Mag(f, bx), Mag(f, bp)) == Mag(f, bx) - Mag(f, bp)
    ensures Fits(f, if Mag(f, bx) >= Mag(f, bp) then Mag(f, bx) - Mag(f, bp) else Mag(f, bp) - Mag(f, bx), m, e)
    ensures Mag(f, bx) >= Mag(f, bp) && Exponent(f, bp) >= 1 ==> e == Exponent(f, bp) - 1
    ensures Mag(f, bx) >= Mag(f, bp) && Exponent(f, bp) == 0 ==> e == 0
  {
    var mx, ex := DatumFits(f, bx);
    var mp, ep := DatumFits(f, bp);
    if Mag(f, bx) >= Mag(f, bp) {
      ExponentMonotone(f, bp, bx);
      m := Sterbenz(f, Mag(f, bx), mx, ex, Mag(f, bp), mp, ep);
      e := ep;
    } else {
      ExponentMonotone(f, bx, bp);
      m := Sterbenz(f, Mag(f, bp), mp, ep, Mag(f, bx), mx, ex);
      e := ex;
    }
    SubtractExact(f, Mag(f, bx), Mag(f, bp), m, e);
  }

  /** The second subtraction, from p/2 <= x - p < p, is exact too. */
  lemma SecondExact(f: Format, bx: nat, bp: nat) returns (m: nat, e: nat)
    requires Mag(f, bx) < 2 * Mag(f, bp) && 3 * Mag(f, bp) <= 2 * Mag(f, bx)
    ensures var y := Mag(f, bx) - Mag(f, bp);
            && Subtract(f, y, Mag(f, bp)) == y - Mag(f, bp)
            && Fits(f, Mag(f, bp) - y, m, e)
  {
    var y := Mag(f, bx) - Mag(f, bp);
    var my, ey := FirstExact(f, bx, bp);
    var mp, ep := DatumFits(f, bp);
    m := Sterbenz(f, Mag(f, bp), mp, ep, y, my, ey);
    e := ey;
    SubtractExact(f, y, Mag(f, bp), m, e);
  }

  lemma MulCancel(a: nat, b: nat, p: nat)
    requires a * p < b * p
    ensures a < b
  {
    assert (b - a) * p == b * p - a * p;
    PositiveFactor(b - a, p);
  }

  lemma PositiveFactor(d: int, p: nat)
    requires d * p > 0
    ensures d > 0
  {
  }

  lemma ExponentTwo(f: Format, b: nat)
    requires b >= 2 * f.One()
    ensures Exponent(f, b) >= 2
  {
    SplitFields(f, b);
    NextMultiple(Exponent(f, b), f.One());
    MulCancel(2, Exponent(f, b) + 1, f.One());
  }

  /** From the smallest normal binade up, p / 2 is exact. */
  lemma HalfExact(f: Format, bp: nat)
    requires bp >= 2 * f.One()
    ensures Mag(f, bp) % 2 == 0 && Round(f, Mag(f, bp) / 2) == Mag(f, bp) / 2
  {
    ExponentTwo(f, bp);
    var m, e := DatumFits(f, bp);
    HalfFits(f, Mag(f, bp), m, e);
  }

  lemma HalfFits(f: Format, v: nat, m: nat, e: nat)
    requires Fits(f, v, m, e) && e >= 1
    ensures v % 2 == 0 && Round(f, v / 2) == v / 2
  {
    EvenHalf(v, Scale(m, e - 1));
    RoundExact(f, Scale(m, e - 1), m, e - 1);
  }

  /** |r| as a datum. */
  function Absolute(r: int): nat {
    if r < 0 then -r else r
  }

  /** The comparisons and subtractions after fmod, on |x| < 2|p|.  Below 2^-1021 the test is
      x+x > p, above it x > 0.5*p; both subtractions are exact and both branches fold. */
  method Halve(f: Format, bx: nat, bp: nat) returns (r: int)
    requires Mag(f, bx) < 2 * Mag(f, bp)
    ensures r == Fold(Mag(f, bx), Mag(f, bp))
    ensures Mag(f, Encode(f, Absolute(r))) == Absolute(r)
  {
    var x, p := Mag(f, bx), Mag(f, bp);
    ghost var m, e := DatumFits(f, bx);
    DoubleExact(f, x, m, e);
    r := x;
    if bp < 2 * f.One() {
      if Add(f, r, r) > p {
        m, e := FirstExact(f, bx, bp);
        r := Subtract(f, r, p);
        DoubleExact(f, r, m, e);
        if Add(f, r, r) >= p {
          m, e := SecondExact(f, bx, bp);
          r := Subtract(f, r, p);
        }
      }
    } else {
      HalfExact(f, bp);
      var half := Round(f, p / 2);
      if r > half {
        m, e := FirstExact(f, bx, bp);
        r := Subtract(f, r, p);
        if r >= half {
          m, e := SecondExact(f, bx, bp);
          r := Subtract(f, r, p);
        }
      }
    }
    MagEncode(f, Absolute(r), m, e);
  }

  /** p + p is exact and finite below the top binade. */
  lemma TwiceDatum(f: Format, b: nat)
    requires b < 2 * f.bias * f.One() && f.bias >= 1
    ensures Add(f, Mag(f, b), Mag(f, b)) == 2 * Mag(f, b)
    ensures Mag(f, Encode(f, 2 * Mag(f, b))) == 2 * Mag(f, b) && Encode(f, 2 * Mag(f, b)) < f.Inf()
  {
    var m, e := DatumFits(f, b);
    DoubleExact(f, Mag(f, b), m, e);
    MagEncode(f, 2 * Mag(f, b), m, e + 1);
    var top, c := 2 * f.bias * f.One(), Encode(f, 2 * Mag(f, b));
    MagMonotone(f, b, top);
    TopBinade(f);
    if c >= f.Inf() {
      if c > f.Inf() { MagMonotone(f, f.Inf(), c); }
    }
  }

  lemma TopBinade(f: Format)
    requires f.bias >= 1
    ensures Mag(f, f.Inf()) == 2 * Mag(f, 2 * f.bias * f.One())
  {
    var e, p := 2 * f.bias, f.One();
    InfinityEncoding(f);
    Fields(f, e * p, e, 0);
    NextMultiple(e, p);
    Fields(f, (e + 1) * p, e + 1, 0);
  }

  /** In the top binade no reduction is needed: every finite x is already below 2p. */
  lemma TopBinadeReduced(f: Format, bx: nat, bp: nat)
    requires bx < f.Inf() && bp >= 2 * f.bias * f.One() && f.bias >= 1
    ensures Mag(f, bx) < 2 * Mag(f, bp)
  {
    TopBinade(f);
    MagMonotone(f, bx, f.Inf());
    if bp > 2 * f.bias * f.One() { MagMonotone(f, 2 * f.bias * f.One(), bp); }
  }

  lemma AlreadyReduced(x: nat, p: nat)
    requires x < 2 * p
    ensures Modulo(x, 2 * p) == x
  {
  }

  lemma {:induction false} ModuloBelow(x: nat, y: nat)
    requires y >= 1
    ensures Modulo(x, y) < y
  {
    if x >= y { ModuloBelow(x - y, y); }
  }

  /** |x| == |p| folds to zero. */
  lemma EqualFoldsToZero(p: nat)
    requires p >= 1
    ensures Remainder(p, p) == 0
  {
    AlreadyReduced(p, p);
  }
}
