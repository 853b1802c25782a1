/** openlibm/src/e_jn.c, lines 109-115 and 158-210: the Bessel function J(n, x) by recurrence,
    over the reals.

    For n > x the ratio J(n)/J(n-1) is the continued fraction 1/(c0 - 1/(c1 - 1/(c2 - ...)))
    with c_j = 2(n+j)/x = w + j*h. */
module Jn {

  // ---- continuants ----

  /** c_j = w + j*h. */
  function C(w: real, h: real, j: nat): real {
    if j == 0 then w else C(w, h, j - 1) + h
  }

  /** The continuant of c_j, ..., c_(j+len-1): the denominators and numerators of the
      convergents. */
  function K(w: real, h: real, j: nat, len: nat): real {
    if len == 0 then 1.0
    else if len == 1 then C(w, h, j)
    else C(w, h, j + len - 1) * K(w, h, j, len - 1) - K(w, h, j, len - 2)
  }

  /** Denominator and numerator of the convergent that stops at c_k. */
  function Q(w: real, h: real, k: nat): real { K(w, h, 0, k + 1) }
  function P(w: real, h: real, k: nat): real { K(w, h, 1, k) }

  /** The fraction itself: 1/(c_j - 1/(c_(j+1) - ... 1/c_(j+len-1))); zero stands for a division
      by zero, which never happens. */
  function Fraction(w: real, h: real, j: nat, len: nat): real
    decreases len
  {
    if len == 0 then 0.0
    else
      var d := C(w, h, j) - Fraction(w, h, j + 1, len - 1);
      if d == 0.0 then 0.0 else 1.0 / d
  }

  lemma {:induction false} CAtLeast(w: real, h: real, j: nat)
    requires w > 2.0 && h > 0.0
    ensures C(w, h, j) > 2.0
  {
    if j != 0 { CAtLeast(w, h, j - 1); }
  }

  lemma {:induction false} CScaled(n: nat, x: real, j: nat)
    requires x > 0.0
    ensures C((n + n) as real / x, 2.0 / x, j) * x == (2 * (n + j)) as real
  {
    if j == 0 {
      DivideBack((n + n) as real, x);
    } else {
      CScaled(n, x, j - 1);
      DivideBack(2.0, x);
      Distributes(C((n + n) as real / x, 2.0 / x, j - 1), 2.0 / x, x);
    }
  }

  lemma DivideBack(a: real, x: real)
    requires x != 0.0
    ensures a / x * x == a
  {
  }

  lemma Distributes(a: real, b: real, x: real)
    ensures (a + b) * x == a * x + b * x
  {
  }

  lemma DivideUnique(a: real, x: real, r: real)
    requires x != 0.0 && r * x == a
    ensures r == a / x
  {
  }

  /** The loops' own i/x is c_j. */
  lemma Coefficient(n: nat, x: real, j: nat)
    requires x > 0.0
    ensures C((n + n) as real / x, 2.0 / x, j) == (2 * (n + j)) as real / x
  {
    CScaled(n, x, j);
    DivideUnique((2 * (n + j)) as real, x, C((n + n) as real / x, 2.0 / x, j));
  }

  lemma TimesAtLeast(c: real, q: real)
    requires c >= 2.0 && q >= 0.0
    ensures c * q >= q + q
  {
  }

  /** Successive continuants grow by more than one, and by more each time. */
  lemma {:induction false} Growth(w: real, h: real, j: nat, len: nat)
    requires w > 2.0 && h > 0.0 && len >= 1
    ensures K(w, h, j, len) > K(w, h, j, len - 1) + 1.0 && K(w, h, j, len - 1) >= 1.0
    ensures K(w, h, j, len + 1) - K(w, h, j, len) >= K(w, h, j, len) - K(w, h, j, len - 1)
  {
    CAtLeast(w, h, j);
    CAtLeast(w, h, j + len);
    CAtLeast(w, h, j + len - 1);
    if len >= 2 { Growth(w, h, j, len - 1); }
    TimesAtLeast(C(w, h, j + len), K(w, h, j, len));
  }

  /** The three-term recurrence. */
  predicate Next(k: real, c: real, k1: real, k2: real) { k == c * k1 - k2 }

  lemma Back(w: real, h: real, j: nat, len: nat, e: real)
    requires len >= 2 && e == C(w, h, j + len - 1)
    ensures Next(K(w, h, j, len), e, K(w, h, j, len - 1), K(w, h, j, len - 2))
  {
  }

  lemma ShortContinuants(w: real, h: real, j: nat)
    ensures K(w, h, j, 0) == 1.0 && K(w, h, j, 1) == C(w, h, j)
    ensures K(w, h, j, 2) == C(w, h, j + 1) * C(w, h, j) - 1.0
    ensures K(w, h, j, 3) == C(w, h, j + 2) * (C(w, h, j + 1) * C(w, h, j) - 1.0) - C(w, h, j)
  {
  }

  /** A continuant can be developed at its front as well as at its back. */
  lemma {:induction false} FrontRecursion(w: real, h: real, j: nat, len: nat)
    requires len >= 2
    ensures Next(K(w, h, j, len), C(w, h, j), K(w, h, j + 1, len - 1), K(w, h, j + 2, len - 2))
  {
    if len <= 3 {
      FrontOfShort(w, h, j);
    } else {
      FrontRecursion(w, h, j, len - 1);
      FrontRecursion(w, h, j, len - 2);
      FrontStep(w, h, j, len, C(w, h, j), C(w, h, j + len - 1));
    }
  }

  lemma FrontOfShort(w: real, h: real, j: nat)
    ensures Next(K(w, h, j, 2), C(w, h, j), K(w, h, j + 1, 1), K(w, h, j + 2, 0))
    ensures Next(K(w, h, j, 3), C(w, h, j), K(w, h, j + 1, 2), K(w, h, j + 2, 1))
  {
    ShortContinuants(w, h, j);
    ShortContinuants(w, h, j + 1);
    ShortContinuants(w, h, j + 2);
    Associate3(C(w, h, j), C(w, h, j + 1), C(w, h, j + 2));
  }

  lemma FrontStep(w: real, h: real, j: nat, len: nat, c: real, e: real)
    requires len > 3 && e == C(w, h, j + len - 1)
    requires Next(K(w, h, j, len - 1), c, K(w, h, j + 1, len - 2), K(w, h, j + 2, len - 3))
    requires Next(K(w, h, j, len - 2), c, K(w, h, j + 1, len - 3), K(w, h, j + 2, len - 4))
    ensures Next(K(w, h, j, len), c, K(w, h, j + 1, len - 1), K(w, h, j + 2, len - 2))
  {
    Back(w, h, j, len, e);
    Back(w, h, j + 1, len - 1, e);
    Back(w, h, j + 2, len - 2, e);
    Rearrange(c, e, K(w, h, j, len), K(w, h, j, len - 1), K(w, h, j, len - 2),
              K(w, h, j + 1, len - 1), K(w, h, j + 1, len - 2), K(w, h, j + 1, len - 3),
              K(w, h, j + 2, len - 2), K(w, h, j + 2, len - 3), K(w, h, j + 2, len - 4));
  }

  lemma Associate3(a: real, b: real, c: real)
    ensures c * (b * a - 1.0) - a == a * (c * b - 1.0) - c
    ensures b * a == a * b
  {
  }

  lemma Rearrange(c: real, e: real, k: real, k1: real, k2: real, p: real, p1: real, p2: real,
                  q: real, q1: real, q2: real)
    requires Next(k, e, k1, k2) && Next(k1, c, p1, q1) && Next(k2, c, p2, q2)
    requires Next(p, e, p1, p2) && Next(q, e, q1, q2)
    ensures Next(k, c, p, q)
  {
    assert e * (c * p1 - q1) - (c * p2 - q2) == c * (e * p1 - p2) - (e * q1 - q2);
  }

  /** The backward evaluation is the quotient of two continuants, strictly between 0 and 1. */
  lemma {:induction false} FractionIsQuotient(w: real, h: real, j: nat, len: nat)
    requires w > 2.0 && h > 0.0 && len >= 1
    ensures K(w, h, j, len) >= 1.0
    ensures IsQuotient(Fraction(w, h, j, len), K(w, h, j + 1, len - 1), K(w, h, j, len))
    ensures 0.0 < Fraction(w, h, j, len) < 1.0
    ensures C(w, h, j) - Fraction(w, h, j + 1, len - 1) != 0.0
    decreases len
  {
    var c, t := C(w, h, j), Fraction(w, h, j + 1, len - 1);
    CAtLeast(w, h, j);
    Growth(w, h, j, len);
    if len == 1 {
      InverseRange(c);
    } else {
      FractionIsQuotient(w, h, j + 1, len - 1);
      FrontRecursion(w, h, j, len);
      Growth(w, h, j + 1, len - 1);
      InverseRange(c - t);
      ReciprocalOfDifference(c, K(w, h, j + 2, len - 2), K(w, h, j + 1, len - 1), K(w, h, j, len));
    }
  }

  lemma InverseRange(d: real)
    requires d > 1.0
    ensures 0.0 < 1.0 / d < 1.0
  {
  }

  lemma ReciprocalOfDifference(c: real, p: real, q: real, r: real)
    requires q > 0.0 && r > 0.0 && Next(r, c, q, p)
    ensures c - p / q > 0.0 && 1.0 / (c - p / q) == q / r
  {
    var d := c - p / q;
    DivideBack(p, q);
    Distributes(c, 0.0 - p / q, q);
    assert d * q == r;
    PositiveFactor(d, q);
    DivideBack(q, r);
    InverseOfProduct(d, q, r);
  }

  lemma PositiveFactor(d: real, q: real)
    requires d * q > 0.0 && q > 0.0
    ensures d > 0.0
  {
  }

  lemma InverseOfProduct(d: real, q: real, r: real)
    requires d > 0.0 && r > 0.0 && d * q == r
    ensures 1.0 / d == q / r
  {
    assert 1.0 / d * r == q by {
      assert 1.0 / d * (d * q) == (1.0 / d * d) * q;
      DivideBack(1.0, d);
    }
    DivideUnique(q, r, 1.0 / d);
  }

  // ---- how far apart the convergents are ----

  predicate Unimodular(p: real, q: real, p1: real, q1: real) { p * q1 - p1 * q == 1.0 }

  lemma {:induction false} Determinant(w: real, h: real, k: nat)
    requires k >= 1
    ensures Unimodular(P(w, h, k), Q(w, h, k), P(w, h, k - 1), Q(w, h, k - 1))
  {
    var c := C(w, h, k);
    if k == 1 {
      ShortContinuants(w, h, 0);
      ShortContinuants(w, h, 1);
    } else {
      Determinant(w, h, k - 1);
      Back(w, h, 0, k + 1, c);
      Back(w, h, 1, k, c);
      CrossProduct(c, K(w, h, 1, k), K(w, h, 1, k - 1), K(w, h, 1, k - 2),
                   K(w, h, 0, k + 1), K(w, h, 0, k), K(w, h, 0, k - 1));
    }
  }

  lemma CrossProduct(c: real, p: real, p1: real, p2: real, q: real, q1: real, q2: real)
    requires Next(p, c, p1, p2) && Next(q, c, q1, q2) && Unimodular(p1, q1, p2, q2)
    ensures Unimodular(p, q, p1, q1)
  {
    assert (c * p1 - p2) * q1 - p1 * (c * q1 - q2) == p1 * q2 - p2 * q1;
  }

  /** d is 1/(q*q1). */
  predicate InverseProduct(d: real, q: real, q1: real) { q * q1 > 0.0 && d == 1.0 / (q * q1) }

  /** Consecutive convergents differ by exactly 1/(Q(k)*Q(k-1)). */
  lemma ConvergentGap(w: real, h: real, k: nat)
    requires w > 2.0 && h > 0.0 && k >= 1
    ensures InverseProduct(Fraction(w, h, 0, k + 1) - Fraction(w, h, 0, k), Q(w, h, k), Q(w, h, k - 1))
  {
    FractionIsQuotient(w, h, 0, k + 1);
    FractionIsQuotient(w, h, 0, k);
    Determinant(w, h, k);
    QuotientDifference(Fraction(w, h, 0, k + 1), K(w, h, 1, k), K(w, h, 0, k + 1),
                       Fraction(w, h, 0, k), K(w, h, 1, k - 1), K(w, h, 0, k));
  }

  /** t is the quotient p/q. */
  predicate IsQuotient(t: real, p: real, q: real) { q > 0.0 && t == p / q }

  lemma ProductPositive(a: real, b: real)
    requires a > 0.0 && b > 0.0
    ensures a * b > 0.0
  {
  }

  lemma QuotientDifference(t: real, p: real, q: real, t': real, p': real, q': real)
    requires IsQuotient(t, p, q) && IsQuotient(t', p', q') && Unimodular(p, q, p', q')
    ensures InverseProduct(t - t', q, q')
  {
    ProductPositive(q, q');
    assert (t - t') * (q * q') == 1.0 by {
      DivideBack(p, q);
      DivideBack(p', q');
      Distributes(t, 0.0 - t', q * q');
      assert t * (q * q') == (t * q) * q';
      assert t' * (q * q') == (t' * q') * q;
    }
    DivideUnique(1.0, q * q', t - t');
  }

  /** Stopping at c_k instead of any later c_l errs by less than 1/Q(k), from below. */
  lemma {:induction false} Truncation(w: real, h: real, k: nat, l: nat)
    requires w > 2.0 && h > 0.0 && k < l
    ensures Within(Fraction(w, h, 0, l + 1) - Fraction(w, h, 0, k + 1), Q(w, h, k), Q(w, h, l))
    decreases l
  {
    ConvergentGap(w, h, l);
    Growth(w, h, 0, l);
    Growth(w, h, 0, l + 1);
    TelescopeStep(Fraction(w, h, 0, l + 1) - Fraction(w, h, 0, l), Q(w, h, l - 1), Q(w, h, l));
    if l > k + 1 {
      Truncation(w, h, k, l - 1);
      WithinAdds(Fraction(w, h, 0, l + 1) - Fraction(w, h, 0, l), Fraction(w, h, 0, l) - Fraction(w, h, 0, k + 1),
                 Q(w, h, k), Q(w, h, l - 1), Q(w, h, l));
    }
  }

  /** 0 < d <= 1/a - 1/b. */
  predicate Within(d: real, a: real, b: real) {
    a >= 1.0 && b >= 1.0 && 0.0 < d <= 1.0 / a - 1.0 / b
  }

  lemma WithinAdds(d: real, e: real, a: real, b: real, c: real)
    requires Within(e, a, b) && Within(d, b, c)
    ensures Within(e + d, a, c)
  {
  }

  lemma TelescopeStep(gap: real, a: real, b: real)
    requires a >= 1.0 && b > a + 1.0 && InverseProduct(gap, b, a)
    ensures Within(gap, a, b)
  {
    var d := 1.0 / a - 1.0 / b;
    assert d * (b * a) == b - a by {
      DivideBack(1.0, a);
      DivideBack(1.0, b);
      Distributes(1.0 / a, 0.0 - 1.0 / b, b * a);
      assert 1.0 / a * (b * a) == (1.0 / a * a) * b;
      assert 1.0 / b * (b * a) == (1.0 / b * b) * a;
    }
    assert d == (b - a) / (b * a) by { DivideUnique(b - a, b * a, d); }
    DivideOrder(1.0, b - a, b * a);
  }

  lemma DivideOrder(p: real, q: real, r: real)
    requires 0.0 < p <= q && r > 0.0
    ensures 0.0 < p / r <= q / r
  {
    DivideBack(p, r);
    DivideBack(q, r);
  }

  /** The numerator of p/q - p1/q1. */
  function Cross(p: real, q: real, p1: real, q1: real): real { p * q1 - p1 * q }

  /** d grows from d1, and stays as far below p as d1 was below p1. */
  predicate Rises(d1: real, d: real, p1: real, p: real) {
    0.0 <= d1 < d && 0.0 < p1 - d1 <= p - d
  }

  /** The numerator of the difference of the convergents l and k rises with l, but is below P(l). */
  lemma {:induction false} CrossBounds(w: real, h: real, k: nat, l: nat, a: real, b: real)
    requires w > 2.0 && h > 0.0 && k < l && a == P(w, h, k) && b == Q(w, h, k)
    ensures Rises(Cross(P(w, h, l - 1), Q(w, h, l - 1), a, b), Cross(P(w, h, l), Q(w, h, l), a, b),
                  P(w, h, l - 1), P(w, h, l))
    decreases l
  {
    if l == k + 1 {
      Determinant(w, h, l);
      Growth(w, h, 1, l);
      RisesFirst(P(w, h, l), Q(w, h, l), a, b);
    } else {
      CrossBounds(w, h, k, l - 1, a, b);
      Recursions(w, h, l);
      StillRises(C(w, h, l), P(w, h, l), P(w, h, l - 1), P(w, h, l - 2),
                 Q(w, h, l), Q(w, h, l - 1), Q(w, h, l - 2), a, b);
    }
  }

  lemma Recursions(w: real, h: real, l: nat)
    requires w > 2.0 && h > 0.0 && l >= 2
    ensures C(w, h, l) > 2.0
    ensures Next(P(w, h, l), C(w, h, l), P(w, h, l - 1), P(w, h, l - 2))
    ensures Next(Q(w, h, l), C(w, h, l), Q(w, h, l - 1), Q(w, h, l - 2))
  {
    CAtLeast(w, h, l);
    Back(w, h, 0, l + 1, C(w, h, l));
    Back(w, h, 1, l, C(w, h, l));
  }

  lemma RisesFirst(p: real, q: real, a: real, b: real)
    requires Unimodular(p, q, a, b) && p > a + 1.0 && a >= 1.0
    ensures Rises(Cross(a, b, a, b), Cross(p, q, a, b), a, p)
  {
  }

  lemma StillRises(c: real, p: real, p1: real, p2: real, q: real, q1: real, q2: real, a: real, b: real)
    requires c > 2.0 && Next(p, c, p1, p2) && Next(q, c, q1, q2)
    requires Rises(Cross(p2, q2, a, b), Cross(p1, q1, a, b), p2, p1)
    ensures Rises(Cross(p1, q1, a, b), Cross(p, q, a, b), p1, p)
  {
    Combine(c, p, p1, p2, q, q1, q2, a, b);
    RisesOn(c, Cross(p, q, a, b), Cross(p1, q1, a, b), Cross(p2, q2, a, b), p, p1, p2);
  }

  lemma Combine(c: real, p: real, p1: real, p2: real, q: real, q1: real, q2: real, a: real, b: real)
    requires Next(p, c, p1, p2) && Next(q, c, q1, q2)
    ensures Next(Cross(p, q, a, b), c, Cross(p1, q1, a, b), Cross(p2, q2, a, b))
  {
    assert (c * p1 - p2) * b == c * (p1 * b) - p2 * b;
    assert a * (c * q1 - q2) == c * (a * q1) - a * q2;
    Distributes(p1 * b, 0.0 - a * q1, c);
  }

  lemma RisesOn(c: real, d: real, d1: real, d2: real, p: real, p1: real, p2: real)
    requires c > 2.0 && Next(d, c, d1, d2) && Next(p, c, p1, p2) && Rises(d2, d1, p2, p1)
    ensures Rises(d1, d, p1, p)
  {
    TimesAtLeast(c, d1);
    TimesAtLeast(c, p1 - d1);
    Distributes(p1, 0.0 - d1, c);
  }

  /** The relative error of stopping at c_k instead of any later c_l is below 1/Q(k). */
  lemma RelativeTruncation(w: real, h: real, k: nat, l: nat)
    requires w > 2.0 && h > 0.0 && k < l
    ensures Q(w, h, k) >= 1.0
    ensures 0.0 < Fraction(w, h, 0, l + 1) - Fraction(w, h, 0, k + 1) < Fraction(w, h, 0, l + 1) / Q(w, h, k)
  {
    CrossBounds(w, h, k, l, P(w, h, k), Q(w, h, k));
    FractionIsQuotient(w, h, 0, k + 1);
    FractionIsQuotient(w, h, 0, l + 1);
    Growth(w, h, 0, k + 2);
    RelativeDifference(Fraction(w, h, 0, l + 1), P(w, h, l), Q(w, h, l),
                       Fraction(w, h, 0, k + 1), P(w, h, k), Q(w, h, k));
  }

  lemma RelativeDifference(t: real, p: real, q: real, t1: real, p1: real, q1: real)
    requires IsQuotient(t, p, q) && IsQuotient(t1, p1, q1) && 0.0 < Cross(p, q, p1, q1) < p
    ensures 0.0 < t - t1 < t / q1
  {
    DivideBack(p, q);
    DivideBack(p1, q1);
    DivideBack(t, q1);
    DifferenceScaled(t, p, q, t1, p1, q1);
    SmallerFactor(0.0, (t - t1) * q1, q);
    SmallerFactor((t - t1) * q1, t, q);
    SmallerFactor(0.0, t - t1, q1);
    SmallerFactor(t - t1, t / q1, q1);
  }

  lemma DifferenceScaled(t: real, p: real, q: real, t1: real, p1: real, q1: real)
    requires t * q == p && t1 * q1 == p1
    ensures ((t - t1) * q1) * q == Cross(p, q, p1, q1)
  {
    Distributes(t, 0.0 - t1, q1);
    Distributes(t * q1, 0.0 - t1 * q1, q);
    assert t * q1 * q == (t * q) * q1;
  }

  lemma SmallerFactor(a: real, b: real, q: real)
    requires a * q < b * q && q > 0.0
    ensures a < b
  {
    if a >= b { FactorOrder(b, a, q); }
  }

  lemma FactorOrder(a: real, b: real, q: real)
    requires a <= b && q > 0.0
    ensures a * q <= b * q
  {
    Distributes(b, 0.0 - a, q);
  }

  // ---- the term-count and backward-evaluation loops ----

  function W(n: nat, x: real): real requires x > 0.0 { (n + n) as real / x }
  function H(x: real): real requires x > 0.0 { 2.0 / x }

  /** The continued fraction of J(n)/J(n-1) stopped at c_k. */
  function Convergent(n: nat, x: real, k: nat): real
    requires x > 0.0
  {
    Fraction(W(n, x), H(x), 0, k + 1)
  }

  lemma StartAboveTwo(n: nat, x: real)
    requires 0.0 < x < n as real
    ensures W(n, x) > 2.0 && H(x) > 0.0
  {
    DivideBack((n + n) as real, x);
    if W(n, x) <= 2.0 { TimesAtMost(W(n, x), x); }
    InversePositive(x);
  }

  lemma TimesAtMost(c: real, x: real)
    requires c <= 2.0 && x > 0.0
    ensures c * x <= x + x
  {
  }

  lemma InversePositive(x: real)
    requires x > 0.0
    ensures 2.0 / x > 0.0
  {
  }

  lemma TermStep(w: real, h: real, k: nat, z: real)
    requires w > 2.0 && h > 0.0 && z == C(w, h, k + 1)
    ensures Next(K(w, h, 0, k + 2), z, K(w, h, 0, k + 1), K(w, h, 0, k))
    ensures K(w, h, 0, k + 2) >= K(w, h, 0, k + 1) + 1.0
  {
    Grows(w, h, 0, k + 2);
    Back(w, h, 0, k + 2, z);
  }

  lemma Grows(w: real, h: real, j: nat, len: nat)
    requires w > 2.0 && h > 0.0 && len >= 1
    ensures K(w, h, j, len) >= K(w, h, j, len - 1) + 1.0
  {
    Growth(w, h, j, len);
  }

  lemma FirstTerms(w: real, h: real)
    ensures w == K(w, h, 0, 1) && w + h == C(w, h, 1) && w * (w + h) - 1.0 == K(w, h, 0, 2)
  {
    ShortContinuants(w, h, 0);
    Associate3(w, w + h, 0.0);
  }

  /** k is the smallest number, at least 1, with Q(k) >= 1e9. */
  predicate StoppedAt(n: nat, x: real, k: nat)
    requires x > 0.0
  {
    && k >= 1 && Q(W(n, x), H(x), k) >= 1.0e9
    && (k >= 2 ==> Q(W(n, x), H(x), k - 1) < 1.0e9)
  }

  lemma {:induction false} QIncreases(w: real, h: real, k: nat, l: nat)
    requires w > 2.0 && h > 0.0 && k < l
    ensures Q(w, h, k) < Q(w, h, l)
    decreases l
  {
    Growth(w, h, 0, l + 1);
    if k + 1 < l { QIncreases(w, h, k, l - 1); }
  }

  /** There is only one such k. */
  lemma StopsOnce(n: nat, x: real, k: nat, l: nat)
    requires 0.0 < x < n as real && StoppedAt(n, x, k) && StoppedAt(n, x, l)
    ensures k == l
  {
    StartAboveTwo(n, x);
    if k < l - 1 { QIncreases(W(n, x), H(x), k, l - 1); }
    if l < k - 1 { QIncreases(W(n, x), H(x), l, k - 1); }
  }

  /** Lines 159-166: the smallest k >= 1 with Q(k) >= 1e9.  Q grows by more than one each time. */
  method TermCount(n: nat, x: real) returns (k: nat)
    requires 0.0 < x < n as real
    ensures StoppedAt(n, x, k)
  {
    var w, h := (n + n) as real / x, 2.0 / x;
    var q0 := w;
    var z := w + h;
    var q1 := w * z - 1.0;
    k := 1;
    StartAboveTwo(n, x);
    FirstTerms(w, h);
    while q1 < 1.0e9
      invariant k >= 1 && z == C(w, h, k) && q0 == K(w, h, 0, k) && q1 == K(w, h, 0, k + 1)
      invariant k >= 2 ==> q0 < 1.0e9
      decreases 1.0e9 - q1
    {
      TermStep(w, h, k, z + h);
      k, z, q0, q1 := NextTerm(k, z, h, q0, q1, K(w, h, 0, k + 2));
    }
  }

  method NextTerm(k0: nat, z0: real, h: real, p: real, q: real, ghost r: real)
      returns (k: nat, z: real, q0: real, q1: real)
    requires Next(r, z0 + h, q, p)
    ensures k == k0 + 1 && z == z0 + h && q0 == q && q1 == r
  {
    k, z, q0, q1 := k0, z0, p, q;
    k := k + 1;
    z := z + h;
    var tmp := z * q1 - q0;
    q0 := q1;
    q1 := tmp;
  }

  /** Line 168: the backward loop. */
  method Backward(n: nat, x: real, k: nat) returns (t: real)
    requires 0.0 < x < n as real
    ensures t == Convergent(n, x, k)
    ensures 0.0 < t < 1.0
    ensures IsQuotient(t, P(W(n, x), H(x), k), Q(W(n, x), H(x), k))
  {
    ghost var w, h := W(n, x), H(x);
    StartAboveTwo(n, x);
    var m := n + n;
    t := 0.0;
    var i := 2 * (n + k);
    ghost var j := k + 1;
    while i >= m
      invariant 0 <= j <= k + 1 && i == 2 * (n + j) - 2
      invariant t == Fraction(w, h, j, k + 1 - j)
      decreases i
    {
      j := j - 1;
      Coefficient(n, x, j);
      FractionIsQuotient(w, h, j, k + 1 - j);
      t := 1.0 / (i as real / x - t);
      i := i - 2;
    }
    assert j == 0;
    FractionIsQuotient(w, h, 0, k + 1);
  }

  /** Every deeper convergent of J(n)/J(n-1)'s continued fraction exceeds the one where the loop
      stops by less than 1e-9, and by less than 1e-9 times its own size. */
  lemma StopsClose(n: nat, x: real, k: nat, l: nat)
    requires 0.0 < x < n as real && StoppedAt(n, x, k) && l > k
    ensures 0.0 < Convergent(n, x, l) - Convergent(n, x, k) < 1.0e-9
    ensures Convergent(n, x, l) - Convergent(n, x, k) < 1.0e-9 * Convergent(n, x, l)
  {
    StartAboveTwo(n, x);
    Truncation(W(n, x), H(x), k, l);
    ErrorBelow(Convergent(n, x, l) - Convergent(n, x, k), Q(W(n, x), H(x), k), Q(W(n, x), H(x), l));
    RelativeTruncation(W(n, x), H(x), k, l);
    FractionIsQuotient(W(n, x), H(x), 0, l + 1);
    QuotientBelow(Convergent(n, x, l), Q(W(n, x), H(x), k));
  }

  lemma QuotientBelow(t: real, a: real)
    requires t > 0.0 && a >= 1.0e9
    ensures t / a <= 1.0e-9 * t
  {
    DivideBack(t, a);
    assert (1.0e-9 * t) * a == t * (1.0e-9 * a);
    FactorOrder(1.0, 1.0e-9 * a, t);
    if t / a > 1.0e-9 * t { FactorStrict(1.0e-9 * t, t / a, a); }
  }

  lemma FactorStrict(a: real, b: real, q: real)
    requires a < b && q > 0.0
    ensures a * q < b * q
  {
    ProductPositive(b - a, q);
    Distributes(b, 0.0 - a, q);
  }

  lemma ErrorBelow(d: real, a: real, b: real)
    requires Within(d, a, b) && a >= 1.0e9
    ensures 0.0 < d < 1.0e-9
  {
    InverseBelow(a);
    InversePositiveOne(b);
  }

  lemma FactorNotNegative(d: real, q: real)
    requires d * q >= 0.0 && q > 0.0
    ensures d >= 0.0
  {
  }

  lemma InverseBelow(a: real)
    requires a >= 1.0e9
    ensures 1.0 / a <= 1.0e-9
  {
    DivideBack(1.0, a);
    Distributes(1.0e-9, 0.0 - 1.0 / a, a);
    FactorNotNegative(1.0e-9 - 1.0 / a, a);
  }

  lemma InversePositiveOne(b: real)
    requires b >= 1.0
    ensures 1.0 / b > 0.0
  {
  }

  // ---- the backward recurrence ----

  datatype Quotient = Undefined | Value(r: real)

  /** Division, with an explicit outcome for a zero divisor. */
  function Divide(p: real, q: real): Quotient {
    if q == 0.0 then Undefined else Value(p / q)
  }

  function Step(a: real, b: real, di: real, x: real): real
    requires x > 0.0
  {
    b * di / x - a
  }

  function StepPair(p: (real, real), di: real, x: real): (real, real)
    requires x > 0.0
  {
    (p.1, Step(p.0, p.1, di, x))
  }

  /** The pair (a, b) after m steps of the unscaled recurrence, from (t, 1). */
  function Down(n: nat, x: real, t: real, m: nat): (real, real)
    requires x > 0.0 && m < n
  {
    if m == 0 then (t, 1.0) else StepPair(Down(n, x, t, m - 1), (2 * (n - m)) as real, x)
  }

  /** Lines 206-209. */
  function Select(t: real, a: real, b: real, z: real, w: real): Quotient {
    if Abs(z) >= Abs(w) then Divide(t * z, b) else Divide(t * w, a)
  }

  function Abs(v: real): real { if v < 0.0 then 0.0 - v else v }

  /** Lines 181-187: the plain loop. */
  method Plain(n: nat, x: real, t: real) returns (a: real, b: real)
    requires x > 0.0 && n >= 1
    ensures (a, b) == Down(n, x, t, n - 1)
  {
    a, b := t, 1.0;
    var i := n - 1;
    var di := (i + i) as real;
    while i > 0
      invariant 0 <= i < n && di == (2 * i) as real && (a, b) == Down(n, x, t, n - 1 - i)
    {
      var temp := b;
      b := b * di;
      b := b / x - a;
      a := temp;
      di := di - 2.0;
      i := i - 1;
    }
  }

  /** (t, a, b) is a positive multiple of (t0, p). */
  predicate Multiple(c: real, t: real, a: real, b: real, t0: real, p: (real, real)) {
    c > 0.0 && t == c * t0 && a == c * p.0 && b == c * p.1
  }

  ghost predicate SomeMultiple(t: real, a: real, b: real, t0: real, p: (real, real)) {
    exists c: real {:trigger Multiple(c, t, a, b, t0, p)} :: Multiple(c, t, a, b, t0, p)
  }

  /** Lines 190-200: one round, scaling b back to one to avoid spurious overflow. */
  method ScaledStep(x: real, di: real, t1: real, a1: real, b1: real,
                    ghost c1: real, ghost t0: real, ghost p: (real, real))
    returns (t: real, a: real, b: real, ghost c: real)
    requires x > 0.0 && Multiple(c1, t1, a1, b1, t0, p)
    ensures Multiple(c, t, a, b, t0, StepPair(p, di, x))
  {
    t, a, b, c := t1, a1, b1, c1;
    StepScales(c, p.0, p.1, di, x);
    var temp := b;
    b := b * di;
    b := b / x - a;
    a := temp;
    if b > 1.0e100 {
      RescaleOne(c, t, a, b, t0, StepPair(p, di, x));
      c := c / b;
      a := a / b;
      t := t / b;
      b := 1.0;
    }
  }

  /** Lines 189-201: the triple stays a common positive multiple of the plain loop's. */
  method Scaled(n: nat, x: real, t0: real) returns (t: real, a: real, b: real)
    requires x > 0.0 && n >= 1
    ensures SomeMultiple(t, a, b, t0, Down(n, x, t0, n - 1))
  {
    t, a, b := t0, t0, 1.0;
    ghost var c := 1.0;
    var i := n - 1;
    var di := (i + i) as real;
    while i > 0
      invariant 0 <= i < n && di == (2 * i) as real
      invariant Multiple(c, t, a, b, t0, Down(n, x, t0, n - 1 - i))
    {
      t, a, b, c := ScaledStep(x, di, t, a, b, c, t0, Down(n, x, t0, n - 1 - i));
      di := di - 2.0;
      i := i - 1;
    }
  }

  lemma StepScales(c: real, a: real, b: real, di: real, x: real)
    requires x > 0.0
    ensures Step(c * a, c * b, di, x) == c * Step(a, b, di, x)
  {
    DivideBack(b * di, x);
    assert c * (b * di / x) * x == c * b * di;
    DivideUnique(c * b * di, x, c * (b * di / x));
  }

  lemma RescaleOne(c: real, t: real, a: real, d: real, t0: real, p: (real, real))
    requires d > 0.0 && Multiple(c, t, a, d, t0, p)
    ensures Multiple(c / d, t / d, a / d, 1.0, t0, p)
  {
    DivideProduct(c, t0, d);
    DivideProduct(c, p.0, d);
    DivideProduct(c, p.1, d);
    DivideUnique(d, d, 1.0);
    InverseRangePositive(c, d);
  }

  lemma DivideProduct(c: real, v: real, d: real)
    requires d > 0.0
    ensures c * v / d == c / d * v
  {
    DivideBack(c, d);
    assert c / d * v * d == (c / d * d) * v;
    DivideUnique(c * v, d, c / d * v);
  }

  lemma InverseRangePositive(c: real, d: real)
    requires c > 0.0 && d > 0.0
    ensures c / d > 0.0
  {
  }

  /** A common positive factor changes neither which quotient is taken nor its value. */
  lemma SelectScales(c: real, t: real, a: real, b: real, t0: real, p: (real, real), z: real, w: real)
    requires Multiple(c, t, a, b, t0, p)
    ensures Select(t, a, b, z, w) == Select(t0, p.0, p.1, z, w)
  {
    if Abs(z) >= Abs(w) {
      DivideScales(c, t, t0, z, b, p.1);
    } else {
      DivideScales(c, t, t0, w, a, p.0);
    }
  }

  lemma DivideScales(c: real, t: real, t0: real, z: real, b: real, b0: real)
    requires c > 0.0 && t == c * t0 && b == c * b0
    ensures Divide(t * z, b) == Divide(t0 * z, b0)
  {
    if b0 != 0.0 {
      NonZeroProduct(c, b0);
      DivideBack(t0 * z, b0);
      assert t0 * z / b0 * (c * b0) == c * t0 * z;
      DivideUnique(t * z, b, t0 * z / b0);
    }
  }

  lemma NonZeroProduct(c: real, b: real)
    requires c != 0.0 && b != 0.0
    ensures c * b != 0.0
  {
  }

  // ---- what the recurrence computes ----

  /** J(i-1) + J(i+1) == 2i/x * J(i) for 1 <= i < n. */
  ghost predicate ThreeTerm(j: seq<real>, x: real)
    requires x > 0.0
  {
    forall i :: 1 <= i < |j| - 1 ==> j[i - 1] == Step(j[i + 1], j[i], (2 * i) as real, x)
  }

  /** q is u times p. */
  predicate Times(q: (real, real), u: real, p: (real, real)) { q.0 == u * p.0 && q.1 == u * p.1 }

  lemma {:induction false} DownFollows(n: nat, x: real, t: real, j: seq<real>, m: nat)
    requires x > 0.0 && m < n && |j| == n + 1 && ThreeTerm(j, x) && j[n] == t * j[n - 1]
    ensures Times((j[n - m], j[n - 1 - m]), j[n - 1], Down(n, x, t, m))
  {
    if m != 0 {
      DownFollows(n, x, t, j, m - 1);
      FollowStep(j[n - m + 1], j[n - m], j[n - 1], Down(n, x, t, m - 1), (2 * (n - m)) as real, x);
    }
  }

  lemma FollowStep(a: real, b: real, u: real, p: (real, real), di: real, x: real)
    requires x > 0.0 && Times((a, b), u, p)
    ensures Times((b, Step(a, b, di, x)), u, StepPair(p, di, x))
  {
    StepScales(u, p.0, p.1, di, x);
  }

  /** For any solution of the three-term recurrence with J(n) == t*J(n-1), given its two first
      values (not both zero), the result is J(n) exactly: neither divisor is zero. */
  lemma ResultIsBessel(n: nat, x: real, t: real, j: seq<real>)
    requires x > 0.0 && n >= 1 && |j| == n + 1 && ThreeTerm(j, x) && j[n] == t * j[n - 1]
    requires j[0] != 0.0 || j[1] != 0.0
    ensures Select(t, Down(n, x, t, n - 1).0, Down(n, x, t, n - 1).1, j[0], j[1]) == Value(j[n])
  {
    DownFollows(n, x, t, j, n - 1);
    SelectCancels(t, j[n - 1], j[n], Down(n, x, t, n - 1), (j[1], j[0]));
  }

  lemma SelectCancels(t: real, u: real, v: real, p: (real, real), q: (real, real))
    requires v == t * u && Times(q, u, p) && (q.0 != 0.0 || q.1 != 0.0)
    ensures Select(t, p.0, p.1, q.1, q.0) == Value(v)
  {
    if Abs(q.1) >= Abs(q.0) {
      Cancel(t, u, p.1, q.1);
    } else {
      Cancel(t, u, p.0, q.0);
    }
  }

  lemma Cancel(t: real, u: real, b: real, z: real)
    requires z == u * b && z != 0.0
    ensures Divide(t * z, b) == Value(t * u)
  {
    assert t * u * b == t * z;
    DivideUnique(t * z, b, t * u);
  }

  // ---- what the quotient is ----

  /** J(0), ..., J(n) for a solution of the three-term recurrence with J(n) == t*J(n-1). */
  ghost predicate Solution(n: nat, x: real, t: real, j: seq<real>)
    requires x > 0.0
  {
    n >= 1 && |j| == n + 1 && ThreeTerm(j, x) && j[n] == t * j[n - 1]
  }

  /** The solution with J(n-1) == u. */
  ghost function Multiples(n: nat, x: real, t: real, u: real): (j: seq<real>)
    requires x > 0.0 && n >= 1
    ensures |j| == n + 1
  {
    seq(n + 1, i requires 0 <= i < n + 1 => if i == n then u * t else u * Down(n, x, t, n - 1 - i).1)
  }

  lemma MultiplesAt(n: nat, x: real, t: real, u: real, i: nat)
    requires x > 0.0 && i < n
    ensures var j := Multiples(n, x, t, u); Times((j[i + 1], j[i]), u, Down(n, x, t, n - 1 - i))
  {
    FrontOfDown(n, x, t, n - 1 - i);
  }

  lemma FrontOfDown(n: nat, x: real, t: real, m: nat)
    requires x > 0.0 && m < n
    ensures Down(n, x, t, m).0 == if m == 0 then t else Down(n, x, t, m - 1).1
  {
  }

  lemma TimesUnique(q: (real, real), q': (real, real), u: real, p: (real, real))
    requires Times(q, u, p) && Times(q', u, p)
    ensures q == q'
  {
  }

  lemma MultiplesStep(n: nat, x: real, t: real, u: real, i: nat)
    requires x > 0.0 && 1 <= i < n
    ensures var j := Multiples(n, x, t, u); j[i - 1] == Step(j[i + 1], j[i], (2 * i) as real, x)
  {
    var j := Multiples(n, x, t, u);
    var p, di := Down(n, x, t, n - 1 - i), (2 * i) as real;
    MultiplesAt(n, x, t, u, i);
    MultiplesAt(n, x, t, u, i - 1);
    FollowStep(j[i + 1], j[i], u, p, di, x);
    TimesUnique((j[i], j[i - 1]), (j[i], Step(j[i + 1], j[i], di, x)), u, StepPair(p, di, x));
  }

  lemma MultiplesSolve(n: nat, x: real, t: real, u: real)
    requires x > 0.0 && n >= 1
    ensures Solution(n, x, t, Multiples(n, x, t, u))
    ensures Times((Multiples(n, x, t, u)[1], Multiples(n, x, t, u)[0]), u, Down(n, x, t, n - 1))
  {
    var j := Multiples(n, x, t, u);
    forall i | 1 <= i < |j| - 1 ensures j[i - 1] == Step(j[i + 1], j[i], (2 * i) as real, x) {
      MultiplesStep(n, x, t, u, i);
    }
    MultiplesAt(n, x, t, u, n - 1);
    MultiplesAt(n, x, t, u, 0);
    LastRatio(j[n], j[n - 1], u, t);
  }

  lemma LastRatio(b: real, a: real, u: real, t: real)
    requires Times((b, a), u, (t, 1.0))
    ensures b == t * a
  {
  }

  /** Which of J(0) and J(1) the last division goes by: the larger one of those given. */
  function Anchor(z: real, w: real): nat { if Abs(z) >= Abs(w) then 0 else 1 }

  /** r is J(n) of the only solution that has the value v at place i; Undefined stands for there being
      none, since all solutions vanish there. */
  ghost predicate IsValueAt(r: Quotient, n: nat, x: real, t: real, i: nat, v: real)
    requires x > 0.0 && n >= 1 && i <= 1
  {
    match r
    case Value(b) =>
      && (exists j: seq<real> :: Solution(n, x, t, j) && j[i] == v)
      && (forall j: seq<real> :: Solution(n, x, t, j) && j[i] == v ==> j[n] == b)
    case Undefined => forall j: seq<real> :: Solution(n, x, t, j) ==> j[i] == 0.0
  }

  lemma SelectIsValue(n: nat, x: real, t: real, z: real, w: real)
    requires x > 0.0 && n >= 1
    ensures IsValueAt(Select(t, Down(n, x, t, n - 1).0, Down(n, x, t, n - 1).1, z, w), n, x, t, Anchor(z, w),
                      if Anchor(z, w) == 0 then z else w)
  {
    var p := Down(n, x, t, n - 1);
    if Abs(z) >= Abs(w) { DivideIsValue(n, x, t, 0, p.1, z); } else { DivideIsValue(n, x, t, 1, p.0, w); }
  }

  /** What J(n-1) is multiplied by at place i. */
  ghost function Factor(n: nat, x: real, t: real, i: nat): real
    requires x > 0.0 && n >= 1
  {
    if i == 0 then Down(n, x, t, n - 1).1 else Down(n, x, t, n - 1).0
  }

  predicate Product(v: real, u: real, d: real) { v == u * d }

  lemma AtAnchor(n: nat, x: real, t: real, i: nat, j: seq<real>)
    requires x > 0.0 && i <= 1 && Solution(n, x, t, j)
    ensures Product(j[i], j[n - 1], Factor(n, x, t, i)) && Product(j[n], t, j[n - 1])
  {
    DownFollows(n, x, t, j, n - 1);
  }

  lemma DivideIsValue(n: nat, x: real, t: real, i: nat, d: real, v: real)
    requires x > 0.0 && n >= 1 && i <= 1 && d == Factor(n, x, t, i)
    ensures IsValueAt(Divide(t * v, d), n, x, t, i, v)
  {
    if d == 0.0 {
      forall j: seq<real> | Solution(n, x, t, j) ensures j[i] == 0.0 { AtAnchor(n, x, t, i, j); }
    } else {
      var j0 := Attains(n, x, t, i, d, v);
      forall j: seq<real> | Solution(n, x, t, j) && j[i] == v ensures j[n] == t * v / d {
        AtAnchor(n, x, t, i, j);
        ThroughAnchor(j[n], t, j[n - 1], d, v);
      }
    }
  }

  lemma Attains(n: nat, x: real, t: real, i: nat, d: real, v: real) returns (j: seq<real>)
    requires x > 0.0 && n >= 1 && i <= 1 && d == Factor(n, x, t, i) && d != 0.0
    ensures Solution(n, x, t, j) && j[i] == v
  {
    j := Multiples(n, x, t, v / d);
    MultiplesSolve(n, x, t, v / d);
    DivideBack(v, d);
  }

  lemma ThroughAnchor(b: real, t: real, u: real, d: real, v: real)
    requires d != 0.0 && Product(v, u, d) && Product(b, t, u)
    ensures b == t * v / d
  {
    assert t * u * d == t * v;
    DivideUnique(t * v, d, t * u);
  }

  lemma GivenBoth(n: nat, x: real, t: real, z: real, w: real, j: seq<real>)
    requires x > 0.0 && n >= 1 && Solution(n, x, t, j) && j[0] == z && j[1] == w && (z != 0.0 || w != 0.0)
    ensures Select(t, Down(n, x, t, n - 1).0, Down(n, x, t, n - 1).1, z, w) == Value(j[n])
  {
    ResultIsBessel(n, x, t, j);
  }

  ghost predicate IsJn(r: Quotient, n: nat, x: real, t: real, z: real, w: real)
    requires x > 0.0 && n >= 1
  {
    && IsValueAt(r, n, x, t, Anchor(z, w), if Anchor(z, w) == 0 then z else w)
    && forall j: seq<real> :: Solution(n, x, t, j) && j[0] == z && j[1] == w && (z != 0.0 || w != 0.0) ==>
         r == Value(j[n])
  }

  /** Lines 158-209, z and w being the values of j0 and j1: for the convergent t at which the term
      count stops, J(n) of the solution with ratio t that has the larger of the two given values.
      Given both values of a solution, not both zero, it is that solution's J(n).  Whether the loop
      that guards against overflow runs makes no difference. */
  method JnBackward(n: nat, x: real, z: real, w: real, mayOverflow: bool) returns (r: Quotient)
    requires 0.0 < x < n as real
    ensures exists k: nat :: StoppedAt(n, x, k) && IsJn(r, n, x, Convergent(n, x, k), z, w)
  {
    var k := TermCount(n, x);
    var t0 := Backward(n, x, k);
    r := DownFrom(n, x, t0, z, w, mayOverflow);
    SelectIsValue(n, x, t0, z, w);
    forall j: seq<real> | Solution(n, x, t0, j) && j[0] == z && j[1] == w && (z != 0.0 || w != 0.0)
      ensures r == Value(j[n])
    {
      GivenBoth(n, x, t0, z, w, j);
    }
    assert StoppedAt(n, x, k) && IsJn(r, n, x, Convergent(n, x, k), z, w);
  }

  /** Lines 169-209. */
  method DownFrom(n: nat, x: real, t0: real, z: real, w: real, mayOverflow: bool) returns (r: Quotient)
    requires x > 0.0 && n >= 1
    ensures r == Select(t0, Down(n, x, t0, n - 1).0, Down(n, x, t0, n - 1).1, z, w)
  {
    var t, a, b := t0, t0, 1.0;
    if !mayOverflow {
      a, b := Plain(n, x, t);
    } else {
      t, a, b := Scaled(n, x, t);
      ghost var c :| Multiple(c, t, a, b, t0, Down(n, x, t0, n - 1));
      SelectScales(c, t, a, b, t0, Down(n, x, t0, n - 1), z, w);
    }
    r := Select(t, a, b, z, w);
  }

  /** Lines 109-115, n <= x: the forward recurrence from J(0) and J(1). */
  method Forward(n: nat, x: real, j0: real, j1: real, ghost j: seq<real>) returns (b: real)
    requires x > 0.0 && n >= 1 && |j| == n + 1 && ThreeTerm(j, x) && j[0] == j0 && j[1] == j1
    ensures b == j[n]
  {
    var a := j0;
    b := j1;
    var i := 1;
    while i < n
      invariant 1 <= i <= n && a == j[i - 1] && b == j[i]
    {
      var temp := b;
      assert j[i - 1] == Step(j[i + 1], j[i], (2 * i) as real, x);
      ForwardStep(a, b, (i + i) as real, x, j[i + 1]);
      b := b * ((i + i) as real / x) - a;
      a := temp;
      i := i + 1;
    }
  }

  lemma ForwardStep(a: real, b: real, di: real, x: real, next: real)
    requires x > 0.0 && a == Step(next, b, di, x)
    ensures b * (di / x) - a == next
  {
    DivideBack(di, x);
    assert b * (di / x) * x == b * di;
    DivideUnique(b * di, x, b * (di / x));
  }
}
