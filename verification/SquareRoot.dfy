/** Correct rounding of square roots, and the digit recurrence shared by e_sqrt.c and
    e_sqrtf.c, on integers. */
module SquareRoot {
  import opened Bits
  import opened Ieee754

  /** What the probes `one - tiny >= one` and `one + tiny > one` distinguish. */
  datatype Rounding = Nearest | Upward | Downward

  /** z is the correctly rounded root of the magnitude n: the root T has T * T == n * 2^UnitExp.
      To nearest, z is strictly nearer to T than every other finite datum (the midpoint of the two
      lies strictly on the other side of T), so the tie rule never applies. */
  ghost predicate IsRoot(f: Format, mode: Rounding, n: nat, z: nat)
    requires f.Valid()
  {
    z < f.Inf() && forall b: nat :: Compares(f, mode, n * Pow2(f.UnitExp()), z, b)
  }

  /** How another datum b compares with the result z when the square of the root is `square`. */
  ghost predicate Compares(f: Format, mode: Rounding, square: nat, z: nat, b: nat) {
    var x, y := Mag(f, b), Mag(f, z);
    match mode
    case Nearest => (b < z ==> (x + y) * (x + y) < 4 * square) && (z < b ==> (x + y) * (x + y) > 4 * square)
    case Upward => square <= y * y && (b < z ==> x * x < square)
    case Downward => y * y <= square && (z < b ==> x * x > square)
  }

  /** At most one datum is the correctly rounded root. */
  lemma RootUnique(f: Format, mode: Rounding, n: nat, z1: nat, z2: nat)
    requires f.Valid() && IsRoot(f, mode, n, z1) && IsRoot(f, mode, n, z2)
    ensures z1 == z2
  {
    assert Compares(f, mode, n * Pow2(f.UnitExp()), z1, z2);
    assert Compares(f, mode, n * Pow2(f.UnitExp()), z2, z1);
  }

  /** q is the integer part of the root of n. */
  ghost predicate IsFloorRoot(n: nat, q: nat) {
    q * q <= n < (q + 1) * (q + 1)
  }

  // ---- the digit recurrence ----

  /** After deciding all bits above r: q is the root so far, rem the scaled remainder. */
  ghost predicate Digits(n: nat, q: nat, rem: nat, r: nat) {
    && r >= 1
    && rem * r == n - q * q
    && rem < 4 * q + 4 * r
  }

  /** After the last bit. */
  ghost predicate AllDigits(n: nat, q: nat, rem: nat) {
    && rem == 2 * (n - q * q)
    && rem < 4 * q + 2
  }

  /** The root after testing bit r. */
  function NextRoot(q: nat, rem: nat, r: nat): nat {
    if 2 * q + r <= rem then q + r else q
  }

  /** The doubled remainder after testing bit r. */
  function NextRem(q: nat, rem: nat, r: nat): nat {
    if 2 * q + r <= rem then 2 * (rem - 2 * q - r) else 2 * rem
  }

  lemma DigitStep(n: nat, q: nat, rem: nat, r: nat)
    requires Digits(n, q, rem, r)
    ensures r % 2 == 0 ==> Digits(n, NextRoot(q, rem, r), NextRem(q, rem, r), r / 2)
    ensures r == 1 ==> AllDigits(n, NextRoot(q, rem, r), NextRem(q, rem, r))
  {
    var d := if 2 * q + r <= rem then 2 * q + r else 0;
    TakeDigit(n, q, rem, r, d);
    if r % 2 == 0 {
      HalveWeight(rem - d, r / 2);
    }
  }

  /** Taking bit r off the remainder. */
  lemma TakeDigit(n: nat, q: nat, rem: nat, r: nat, d: nat)
    requires rem * r == n - q * q && d <= rem && (d == 0 || d == 2 * q + r)
    ensures (rem - d) * r == n - (if d == 0 then q * q else (q + r) * (q + r))
  {
    assert (rem - d) * r == rem * r - d * r;
    assert d != 0 ==> d * r == 2 * (q * r) + r * r && (q + r) * (q + r) == q * q + 2 * (q * r) + r * r;
  }

  lemma HalveWeight(rem: nat, h: nat)
    ensures (2 * rem) * h == rem * (2 * h)
  {
  }

  lemma AllDigitsRoot(n: nat, q: nat, rem: nat)
    requires AllDigits(n, q, rem)
    ensures IsFloorRoot(n, q)
    ensures rem == 0 <==> q * q == n
  {
  }

  datatype DigitState = DigitState(root: nat, rem: nat)

  /** The recurrence run for k bits, from weight 2^e downwards, on remainder x. */
  function Run(x: nat, e: nat, k: nat): DigitState
    requires k <= e + 1
  {
    if k == 0 then DigitState(0, x)
    else
      var s := Run(x, e, k - 1);
      var r := Pow2(e - (k - 1));
      DigitState(NextRoot(s.root, s.rem, r), NextRem(s.root, s.rem, r))
  }

  lemma {:induction false} RunDigits(n: nat, x: nat, e: nat, k: nat)
    requires k <= e + 1 && Digits(n, 0, x, Pow2(e))
    ensures k <= e ==> Digits(n, Run(x, e, k).root, Run(x, e, k).rem, Pow2(e - k))
    ensures k == e + 1 ==> AllDigits(n, Run(x, e, k).root, Run(x, e, k).rem)
  {
    if k != 0 {
      var s := Run(x, e, k - 1);
      RunDigits(n, x, e, k - 1);
      Pow2Halves(e - (k - 1));
      DigitStep(n, s.root, s.rem, Pow2(e - (k - 1)));
    }
  }

  /** Root and remainder stay within e + 1 and e + 3 bits. */
  lemma {:induction false} RunRange(x: nat, e: nat, k: nat)
    requires k <= e && x < 4 * Pow2(e)
    ensures Run(x, e, k).root + 2 * Pow2(e - k) <= 2 * Pow2(e)
    ensures Run(x, e, k).rem < 4 * Run(x, e, k).root + 4 * Pow2(e - k)
  {
    if k != 0 {
      RunRange(x, e, k - 1);
      Pow2Halves(e - (k - 1));
    }
  }

  // ---- final rounding ----

  /** The significand chosen from the root with one extra bit. */
  function RoundBit(mode: Rounding, q: nat, inexact: bool): nat {
    if !inexact then q / 2
    else match mode
      case Nearest => (q + q % 2) / 2
      case Upward => (q + 2) / 2
      case Downward => q / 2
  }

  lemma EvenSquare(q: nat)
    ensures (q * q) % 2 == q % 2
  {
    var h, r := q / 2, q % 2;
    var k := h * q;
    assert q * q == 2 * k + r * q by {
      assert q * q == (2 * h + r) * q;
    }
    assert r == 0 ==> r * q == 0;
    assert r == 1 ==> r * q == q;
  }

  /** Squares of multiples of k keep the order of the squares. */
  lemma ScaledOrder(a: nat, b: nat, k: nat)
    requires k >= 1 && a < b
    ensures a * (k * k) < b * (k * k)
  {
    var kk := k * k;
    assert kk >= 1;
    MulStrict(a, b, kk);
  }

  lemma MulStrict(a: nat, b: nat, c: nat)
    requires c >= 1 && a < b
    ensures a * c < b * c
  {
    MulAtLeast(b - a, c);
    assert (b - a) * c == b * c - a * c;
  }

  lemma SquareOrder(a: nat, b: nat)
    requires a <= b
    ensures a * a <= b * b
    ensures a < b ==> a * a < b * b
  {
    assert a * a <= a * b <= b * b;
    if a < b { assert b * b - a * b == (b - a) * b; }
  }

  /** The datum below a normalised one: half a step closer at the bottom of a binade. */
  lemma BelowNormal(f: Format, e: nat, m: nat, b: nat)
    requires e >= 2 && f.One() <= m <= 2 * f.One()
    requires b < (e - 1) * f.One() + m
    ensures Mag(f, b) <= m * Pow2(e - 1) - (if m == f.One() then Pow2(e - 2) else Pow2(e - 1))
  {
    var z, p := (e - 1) * f.One() + m, f.One();
    PackNormal(f, e, m);
    if m == p {
      PackNormal(f, e - 1, 2 * p - 1);
      assert z - 1 == (e - 2) * p + (2 * p - 1);
      MagStep(f, z - 1);
      assert Pow2(e - 1) == 2 * Pow2(e - 2);
    } else {
      PackNormal(f, e, m - 1);
      MagStep(f, z - 1);
    }
    if b < z - 1 { MagMonotone(f, b, z - 1); }
  }

  /** The datum above a normalised one. */
  lemma AboveNormal(f: Format, e: nat, m: nat, b: nat)
    requires e >= 1 && f.One() <= m <= 2 * f.One()
    requires b > (e - 1) * f.One() + m
    ensures Mag(f, b) >= (m + 1) * Pow2(e - 1)
  {
    PackNormal(f, e, m);
    MagMonotone(f, (e - 1) * f.One() + m, b);
    assert Pow2(e) == 2 * Pow2(e - 1);
    assert (m + 1) * Pow2(e - 1) == m * Pow2(e - 1) + Pow2(e - 1);
  }

  /** Everything known when the result is packed: nn is the scaled argument, q its floor root
      with one bit beyond the significand, and the true root is sqrt(nn) * 2^(e - 2). */
  ghost predicate Packed(f: Format, n: nat, nn: nat, q: nat, e: nat) {
    && f.Valid()
    && e >= 2
    && n * Pow2(f.UnitExp()) == nn * (Pow2(e - 2) * Pow2(e - 2))
    && nn % 2 == 0
    && IsFloorRoot(nn, q)
    && 2 * f.One() <= q < 4 * f.One()
  }

  function PackedBits(f: Format, mode: Rounding, q: nat, inexact: bool, e: nat): nat
    requires e >= 1
  {
    (e - 1) * f.One() + RoundBit(mode, q, inexact)
  }

  lemma Regroup(m: nat, k: nat)
    ensures m * (2 * k) == (2 * m) * k
    ensures (m + 1) * (2 * k) == (2 * m) * k + 2 * k
    ensures (2 * m + 2) * k == (2 * m) * k + 2 * k
    ensures m >= 1 ==> (2 * m - 2) * k == (2 * m) * k - 2 * k
    ensures m >= 1 ==> (2 * m - 1) * k == (2 * m) * k - k
  {
  }

  /** A normal datum and its neighbours, in units of k = 2^(e - 2). */
  lemma NormalNeighbours(f: Format, e: nat, m: nat, k: nat, b: nat)
    requires e >= 2 && f.One() <= m <= 2 * f.One() && k == Pow2(e - 2)
    ensures Mag(f, (e - 1) * f.One() + m) == (2 * m) * k
    ensures b < (e - 1) * f.One() + m ==> Mag(f, b) + (if m == f.One() then k else 2 * k) <= (2 * m) * k
    ensures b > (e - 1) * f.One() + m ==> Mag(f, b) >= (2 * m) * k + 2 * k
  {
    Regroup(m, k);
    PackNormal(f, e, m);
    assert Pow2(e - 1) == 2 * k;
    if b < (e - 1) * f.One() + m { BelowNormal(f, e, m, b); }
    if b > (e - 1) * f.One() + m { AboveNormal(f, e, m, b); }
  }

  lemma RoundBitRange(f: Format, mode: Rounding, n: nat, nn: nat, q: nat, e: nat)
    requires Packed(f, n, nn, q, e)
    ensures f.One() <= RoundBit(mode, q, q * q != nn) <= 2 * f.One()
  {
    EvenSquare(q);
  }

  // The inequalities behind each case, on plain numbers: x, w * k and nn * (k * k) are the
  // neighbour, the result and the square of the true root.

  lemma ScaleSquare(a: nat, k: nat)
    ensures (a * k) * (a * k) == (a * a) * (k * k)
  {
  }

  lemma MulMonotone(a: nat, b: nat, c: nat)
    requires a <= b
    ensures a * c <= b * c
  {
  }

  lemma CompareBelow(v: nat, c: nat, k: nat, nn: nat)
    requires k >= 1 && v <= c * k && c * c < nn
    ensures v * v < nn * (k * k)
  {
    SquareOrder(v, c * k);
    ScaleSquare(c, k);
    ScaledOrder(c * c, nn, k);
  }

  lemma CompareAbove(v: nat, c: nat, k: nat, nn: nat)
    requires k >= 1 && v >= c * k && c * c > nn
    ensures v * v > nn * (k * k)
  {
    SquareOrder(c * k, v);
    ScaleSquare(c, k);
    ScaledOrder(nn, c * c, k);
  }

  lemma Quadruple(nn: nat, k: nat)
    ensures nn * ((2 * k) * (2 * k)) == 4 * (nn * (k * k))
  {
  }

  lemma MidpointBelow(x: nat, w: nat, k: nat, nn: nat)
    requires k >= 1 && w >= 1 && x + 2 * k <= w * k && (w - 1) * (w - 1) < nn
    ensures (x + w * k) * (x + w * k) < 4 * (nn * (k * k))
  {
    assert (w - 1) * (2 * k) == 2 * (w * k) - 2 * k;
    CompareBelow(x + w * k, w - 1, 2 * k, nn);
    Quadruple(nn, k);
  }

  lemma MidpointBelowBinade(x: nat, w: nat, k: nat, nn: nat)
    requires k >= 1 && x + k <= w * k && w * w <= nn
    ensures (x + w * k) * (x + w * k) < 4 * (nn * (k * k))
  {
    var v := x + w * k;
    assert w * (2 * k) == 2 * (w * k);
    SquareOrder(v, w * (2 * k));
    ScaleSquare(w, 2 * k);
    MulMonotone(w * w, nn, (2 * k) * (2 * k));
    Quadruple(nn, k);
  }

  lemma MidpointAbove(x: nat, w: nat, k: nat, nn: nat)
    requires k >= 1 && x >= w * k + 2 * k && (w + 1) * (w + 1) > nn
    ensures (x + w * k) * (x + w * k) > 4 * (nn * (k * k))
  {
    assert (w + 1) * (2 * k) == 2 * (w * k) + 2 * k;
    CompareAbove(x + w * k, w + 1, 2 * k, nn);
    Quadruple(nn, k);
  }

  /** The root against the chosen significand. */
  lemma RootAgainstChoice(mode: Rounding, nn: nat, q: nat, w: nat)
    requires IsFloorRoot(nn, q) && nn % 2 == 0 && q >= 2
    requires w == 2 * RoundBit(mode, q, q * q != nn)
    ensures mode.Nearest? ==> (w - 1) * (w - 1) < nn < (w + 1) * (w + 1) && (w <= q ==> w * w <= nn)
    ensures mode.Upward? ==> nn <= w * w && (w - 2) * (w - 2) < nn && (w == q ==> (w - 1) * (w - 1) < nn)
    ensures mode.Downward? ==> w * w <= nn < (w + 2) * (w + 2)
  {
    EvenSquare(q);
    SquareOrder(q - 1, q);
    SquareOrder(q - 2, q);
    SquareOrder(q + 1, q + 2);
    if w < q { SquareOrder(w, q); }
  }

  lemma NearestCompares(f: Format, nn: nat, q: nat, e: nat, m: nat, k: nat, b: nat)
    requires e >= 2 && k == Pow2(e - 2) && f.One() <= m <= 2 * f.One() && 2 * f.One() <= q
    requires IsFloorRoot(nn, q) && nn % 2 == 0 && m == RoundBit(Nearest, q, q * q != nn)
    ensures Compares(f, Nearest, nn * (k * k), (e - 1) * f.One() + m, b)
  {
    var z, w := (e - 1) * f.One() + m, 2 * m;
    RootAgainstChoice(Nearest, nn, q, w);
    NormalNeighbours(f, e, m, k, b);
    if b < z {
      if m > f.One() { MidpointBelow(Mag(f, b), w, k, nn); } else { MidpointBelowBinade(Mag(f, b), w, k, nn); }
    }
    if z < b { MidpointAbove(Mag(f, b), w, k, nn); }
  }

  lemma UpwardCompares(f: Format, nn: nat, q: nat, e: nat, m: nat, k: nat, b: nat)
    requires e >= 2 && k == Pow2(e - 2) && f.One() <= m <= 2 * f.One() && 2 * f.One() <= q
    requires IsFloorRoot(nn, q) && nn % 2 == 0 && m == RoundBit(Upward, q, q * q != nn)
    ensures Compares(f, Upward, nn * (k * k), (e - 1) * f.One() + m, b)
  {
    RootAgainstChoice(Upward, nn, q, 2 * m);
    NormalNeighbours(f, e, m, k, b);
    UpwardArithmetic(Mag(f, b), 2 * m, k, nn, m == f.One(), b < (e - 1) * f.One() + m);
  }

  lemma UpwardArithmetic(x: nat, w: nat, k: nat, nn: nat, bottom: bool, below: bool)
    requires k >= 1 && w >= 2 && nn <= w * w
    requires below ==> x + (if bottom then k else 2 * k) <= w * k
    requires below && bottom ==> (w - 1) * (w - 1) < nn
    requires below ==> (w - 2) * (w - 2) < nn
    ensures nn * (k * k) <= (w * k) * (w * k)
    ensures below ==> x * x < nn * (k * k)
  {
    ScaleSquare(w, k);
    MulMonotone(nn, w * w, k * k);
    if below {
      var c := if bottom then w - 1 else w - 2;
      assert c * k == w * k - (if bottom then k else 2 * k);
      CompareBelow(x, c, k, nn);
    }
  }

  lemma DownwardCompares(f: Format, nn: nat, q: nat, e: nat, m: nat, k: nat, b: nat)
    requires e >= 2 && k == Pow2(e - 2) && f.One() <= m <= 2 * f.One() && 2 * f.One() <= q
    requires IsFloorRoot(nn, q) && nn % 2 == 0 && m == RoundBit(Downward, q, q * q != nn)
    ensures Compares(f, Downward, nn * (k * k), (e - 1) * f.One() + m, b)
  {
    RootAgainstChoice(Downward, nn, q, 2 * m);
    NormalNeighbours(f, e, m, k, b);
    DownwardArithmetic(Mag(f, b), 2 * m, k, nn, (e - 1) * f.One() + m < b);
  }

  lemma DownwardArithmetic(x: nat, w: nat, k: nat, nn: nat, above: bool)
    requires k >= 1 && w * w <= nn < (w + 2) * (w + 2)
    requires above ==> x >= w * k + 2 * k
    ensures (w * k) * (w * k) <= nn * (k * k)
    ensures above ==> x * x > nn * (k * k)
  {
    ScaleSquare(w, k);
    MulMonotone(w * w, nn, k * k);
    if above {
      assert (w + 2) * k == w * k + 2 * k;
      CompareAbove(x, w + 2, k, nn);
    }
  }

  /** The packed result is the correctly rounded root, in every rounding mode. */
  lemma RoundingIsCorrect(f: Format, mode: Rounding, n: nat, nn: nat, q: nat, e: nat, z: nat)
    requires Packed(f, n, nn, q, e)
    requires z == PackedBits(f, mode, q, q * q != nn, e) && z < f.Inf()
    ensures IsRoot(f, mode, n, z)
  {
    var k, m, square := Pow2(e - 2), RoundBit(mode, q, q * q != nn), n * Pow2(f.UnitExp());
    RoundBitRange(f, mode, n, nn, q, e);
    forall b: nat ensures Compares(f, mode, square, z, b) {
      match mode {
        case Nearest => NearestCompares(f, nn, q, e, m, k, b);
        case Upward => UpwardCompares(f, nn, q, e, m, k, b);
        case Downward => DownwardCompares(f, nn, q, e, m, k, b);
      }
    }
    assert Compares(f, mode, square, z, z);
  }

  /** Halving the exponent: the argument as a significand with an even power of two. */
  lemma HalveExponent(f: Format, mag: nat, m0: nat, e: int, x: nat, m: int)
    requires f.Valid() && Normalized(f, mag, m0, e)
    requires m == (e - f.bias) / 2 && x == (if (e - f.bias) % 2 == 1 then 2 * m0 else m0)
    ensures f.bias + m >= 2
    ensures mag * Pow2(f.UnitExp()) == x * (4 * f.One()) * (Pow2(f.bias + m - 2) * Pow2(f.bias + m - 2))
  {
    var k := f.bias + m - 2;
    var odd := (e - f.bias) % 2;
    Pow2Add(f.bias - 1, f.frac);
    Pow2Add(k, k);
    Pow2Add(f.frac + 2, 2 * k);
    Pow2Add(f.frac + e - 1, f.bias - 1);
    ScaleIsProduct(mag, f.frac);
    ScaleIsProduct(m0, f.frac + e - 1);
    var t := Pow2(f.frac + 2 + 2 * k);
    assert f.frac + e - 1 + f.bias - 1 == f.frac + 2 + 2 * k + odd;
    ScaleArgument(mag, f.One(), m0, Pow2(f.frac + e - 1), Pow2(f.bias - 1), odd, t, x, Pow2(k) * Pow2(k));
  }

  lemma ScaleArgument(mag: nat, p: nat, m0: nat, a: nat, b: nat, odd: int, t: nat, x: nat, c: nat)
    requires mag * p == m0 * a
    requires 0 <= odd <= 1 && a * b == (if odd == 1 then 2 * t else t) && t == 4 * p * c
    requires x == if odd == 1 then 2 * m0 else m0
    ensures mag * (b * p) == x * (4 * p) * c
  {
    calc {
      mag * (b * p);
      { MulAssociates(mag, p, b); }
      (m0 * a) * b;
      { MulAssociates(m0, a, b); }
      m0 * (a * b);
      { if odd == 1 { MulAssociates(m0, 2, t); } }
      x * t;
      { MulAssociates(x, 4 * p, c); }
      x * (4 * p) * c;
    }
  }

  /** The recurrence starts with no digits and the doubled significand as remainder. */
  lemma FirstDigit(f: Format, x: nat)
    requires f.One() <= x < 4 * f.One()
    ensures Digits(x * (4 * f.One()), 0, 2 * x, 2 * f.One())
    ensures (x * (4 * f.One())) % 2 == 0
  {
    assert x * (4 * f.One()) == 2 * (x * (2 * f.One()));
  }

  /** A root found by the recurrence has frac + 2 bits. */
  lemma RootWidth(f: Format, x: nat, q: nat)
    requires f.One() <= x < 4 * f.One() && IsFloorRoot(x * (4 * f.One()), q)
    ensures 2 * f.One() <= q < 4 * f.One()
  {
    var p := f.One();
    assert (2 * p) * (2 * p) == p * (4 * p);
    MulMonotone(p, x, 4 * p);
    MulStrict(x, 4 * p, 4 * p);
    if q < 2 * p { SquareOrder(q + 1, 2 * p); }
    if q >= 4 * p { SquareOrder(4 * p, q); }
  }

  /** What both square root routines return once the recurrence has stopped. */
  lemma RootResult(f: Format, mode: Rounding, mag: nat, m0: nat, e: int, x: nat, m: int, q: nat, rem: nat, z: nat)
    requires f.Valid() && Normalized(f, mag, m0, e) && e <= 2 * f.bias
    requires m == (e - f.bias) / 2 && x == (if (e - f.bias) % 2 == 1 then 2 * m0 else m0)
    requires AllDigits(x * (4 * f.One()), q, rem)
    requires z == (f.bias + m - 1) * f.One() + RoundBit(mode, q, rem != 0)
    ensures IsRoot(f, mode, mag, z)
  {
    var nn := x * (4 * f.One());
    HalveExponent(f, mag, m0, e, x, m);
    AllDigitsRoot(nn, q, rem);
    FirstDigit(f, x);
    RootWidth(f, x, q);
    RoundBitRange(f, mode, mag, nn, q, f.bias + m);
    ExponentRange(f, m, RoundBit(mode, q, rem != 0));
    RoundingIsCorrect(f, mode, mag, nn, q, f.bias + m, z);
  }

  lemma ExponentRange(f: Format, m: int, sig: nat)
    requires f.Valid() && 2 <= f.bias + m && 2 * m <= f.bias && sig <= 2 * f.One()
    ensures (f.bias + m - 1) * f.One() + sig < f.Inf()
  {
    var p, c := f.One(), f.bias + m - 1;
    InfinityEncoding(f);
    MulMonotone(c + 2, 2 * f.bias, p);
    assert (c + 2) * p == c * p + 2 * p;
    assert (2 * f.bias + 1) * p == 2 * f.bias * p + p;
  }
}
