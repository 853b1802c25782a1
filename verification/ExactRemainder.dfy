/** The shift-and-subtract remainder on integers, shared by fmod, fmodf and fmodl. */
module ExactRemainder {
  import opened Bits
  import opened Ieee754

  /** x mod y. */
  function Modulo(x: nat, y: nat): nat
    requires y >= 1
  {
    if x < y then x else Modulo(x - y, y)
  }

  lemma {:induction false} ModuloIsRemainder(x: nat, y: nat)
    requires y >= 1
    ensures Modulo(x, y) == x % y
  {
    if x < y {
      DivModUnique(x, y, 0, x);
    } else {
      ModuloIsRemainder(x - y, y);
      ModShift(x, x - y, 1, y);
    }
  }

  lemma ModDouble(a: nat, b: nat, m: nat)
    requires m >= 1 && a % m == b % m
    ensures (2 * a) % m == (2 * b) % m
  {
    TwiceRest(a, m);
    TwiceRest(b, m);
  }

  lemma TwiceRest(a: nat, m: nat)
    requires m >= 1
    ensures (2 * a) % m == (2 * (a % m)) % m
  {
    var q, r := a / m, a % m;
    TwiceQuotient(a, q, m, r);
    ModShift(2 * a, 2 * r, 2 * q, m);
  }

  lemma TwiceQuotient(a: nat, q: nat, m: nat, r: nat)
    requires a == q * m + r
    ensures 2 * a == (2 * q) * m + 2 * r
  {
    MulAssociates(2, q, m);
  }

  lemma ModShift(a: nat, r: nat, q: nat, m: nat)
    requires m >= 1 && a == q * m + r
    ensures a % m == r % m
  {
    var c, s := r / m, r % m;
    QuotientsAdd(a, q, c, m, s);
    DivModUnique(a, m, q + c, s);
  }

  lemma QuotientsAdd(a: nat, q: nat, c: nat, m: nat, s: nat)
    requires a == q * m + (c * m + s)
    ensures a == (q + c) * m + s
  {
  }

  /** One pass of the loop: m is congruent to the scaled dividend and below twice the divisor. */
  lemma ReduceStep(m: nat, mx: nat, k: nat, my: nat)
    requires my >= 1 && m < 2 * my && m % my == Scale(mx, k) % my
    ensures var next := if m < my then 2 * m else 2 * (m - my);
            next < 2 * my && next % my == Scale(mx, k + 1) % my
    ensures m == my ==> Scale(mx, k) % my == 0
  {
    var v := Scale(mx, k);
    assert Scale(mx, k + 1) == 2 * v;
    DoubledRest(m, v, my);
  }

  lemma DoubledRest(m: nat, v: nat, my: nat)
    requires my >= 1 && m % my == v % my
    ensures m >= my ==> (2 * (m - my)) % my == (2 * v) % my
    ensures m < my ==> (2 * m) % my == (2 * v) % my
    ensures m == my ==> v % my == 0
  {
    if m < my {
      ModDouble(m, v, my);
    } else {
      ModShift(m, m - my, 1, my);
      ModDouble(m - my, v, my);
      if m == my { DivModUnique(m, my, 1, 0); }
    }
  }

  /** Once the scaled dividend is a multiple of the divisor it stays one. */
  lemma {:induction false} StaysZero(mx: nat, k: nat, d: nat, my: nat)
    requires my >= 1 && k <= d && Scale(mx, k) % my == 0
    ensures Scale(mx, d) % my == 0
  {
    if k < d {
      StaysZero(mx, k, d - 1, my);
      ModDouble(Scale(mx, d - 1), 0, my);
    }
  }

  lemma ReduceLast(m: nat, my: nat)
    requires my >= 1 && m < 2 * my
    ensures m % my == if m < my then m else m - my
  {
    if m < my { DivModUnique(m, my, 0, m); } else { DivModUnique(m, my, 1, m - my); }
  }

  lemma {:induction false} ScaleMod(a: nat, b: nat, k: nat)
    requires b >= 1 && Scale(b, k) >= 1
    ensures Scale(a % b, k) == Scale(a, k) % Scale(b, k)
  {
    if k != 0 {
      ScaleAtLeast(b, k - 1, 0);
      ScaleMod(a, b, k - 1);
      TwiceMod(Scale(a, k - 1), Scale(b, k - 1));
    }
  }

  lemma TwiceMod(a: nat, b: nat)
    requires b >= 1
    ensures (2 * a) % (2 * b) == 2 * (a % b)
  {
    var q, r := a / b, a % b;
    assert a == q * b + r;
    MulDouble(q, b);
    DivModUnique(2 * a, 2 * b, q, 2 * r);
  }

  /** The reduced significand has the value of the exact remainder of the magnitudes. */
  lemma RemainderValue(f: Format, x: nat, mx: nat, ex: int, y: nat, my: nat, ey: int)
    requires y >= 1 && my >= 1 && ey <= ex
    requires SameValue(f, x, mx, ex) && SameValue(f, y, my, ey)
    ensures SameValue(f, x % y, Scale(mx, ex - ey) % my, ey)
  {
    var c := f.frac + ey - 1;
    ScaleAdd(mx, ex - ey, c);
    ScaleAtLeast(y, f.frac, 0);
    ScaleAtLeast(my, c, 0);
    ScaleMod(x, y, f.frac);
    ScaleMod(Scale(mx, ex - ey), my, c);
  }

  /** Moving the leading bit up by one place keeps the value, and cannot run below exponent 1 - frac. */
  lemma NormaliseStep(f: Format, mag: nat, m: nat, e: int)
    requires SameValue(f, mag, m, e) && 0 < m < f.One()
    ensures mag >= 1 && SameValue(f, mag, 2 * m, e - 1)
  {
    var c := f.frac + e - 1;
    ScaleAtLeast(m, c, 0);
    if mag == 0 { ScaleIsProduct(0, f.frac); }
    ScaleAtLeast(mag, f.frac, f.frac);
    ScaleAdd(m, 1, c - 1);
    assert Scale(m, 1) == 2 * Scale(m, 0);
  }

  lemma ZeroValue(f: Format, mag: nat, e: int)
    requires SameValue(f, mag, 0, e)
    ensures mag == 0
  {
    ScaleIsProduct(0, f.frac + e - 1);
    if mag > 0 { ScaleAtLeast(mag, f.frac, 0); }
  }
}
