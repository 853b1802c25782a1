/** openlibm/src/e_remainder.c: round-half-even reduction on top of fmod, over two words.

    Line 72 clears the sign of a result whose high word is zero without looking at the low word,
    so a negative result below 2^32 units (2^-1042) comes out with the wrong sign. */
module RemainderDouble {
  import opened Bits
  import opened Ieee754
  import opened DoubleWords
  import opened FloatArith
  import opened ExactRemainder
  import opened NearestRemainder
  import Fmod

  /** The words of a datum below infinity, sign clear. */
  method Words(b: nat) returns (w: (u32, u32))
    requires b < INF
    ensures Datum(w) == b && w.0 < SIGN
  {
    w := (b / WORD, b % WORD);
  }

  ghost predicate Invalid(x: (u32, u32), p: (u32, u32)) {
    Datum(p) == 0 || Datum(x) >= INF || Datum(p) > INF
  }

  lemma Constants()
    ensures BINARY64.One() == 0x10_0000_0000_0000 && BINARY64.Inf() == INF
    ensures Mag(BINARY64, 0) == 0
  {
    DoubleConstants();
    Fields(BINARY64, 0, 0, 0);
  }

  /** The generic word layout at 32 bits is this module's. */
  lemma DoubleLayout(x: (u32, u32))
    ensures Fmod.DOUBLE.Valid() && Fmod.DOUBLE.Fmt() == BINARY64 && Pow2(32) == WORD
    ensures Fmod.Datum(Fmod.DOUBLE, x.0, x.1) == Datum(x)
    ensures Fmod.SignOf(Fmod.DOUBLE, x.0) == x.0 / SIGN * SIGN
  {
    Fmod.LayoutsValid();
    Pow2Constants();
    ShrIsDivision(x.0, 31);
  }

  /** fmod at double width, stated on this module's data. */
  method FmodDouble(x: (u32, u32), y: (u32, u32)) returns (r: (u32, u32))
    requires Datum(x) < INF && 0 < Datum(y) <= INF
    ensures r.0 / SIGN == x.0 / SIGN && Datum(r) < INF
    ensures Mag(BINARY64, Datum(y)) > 0
    ensures Mag(BINARY64, Datum(r)) == Modulo(Mag(BINARY64, Datum(x)), Mag(BINARY64, Datum(y)))
  {
    DoubleLayout(x);
    DoubleLayout(y);
    Constants();
    var z := Fmod.Fmod(Fmod.DOUBLE, x, y);
    DoubleLayout((z.bits.0, z.bits.1));
    r := (z.bits.0, z.bits.1);
  }

  /** p + p as a word pair. */
  method Twice(p: (u32, u32)) returns (pp: (u32, u32))
    requires 0 < Datum(p) && p.0 % SIGN <= 0x7fdf_ffff
    ensures 0 < Datum(pp) < INF && Mag(BINARY64, Datum(pp)) == 2 * Mag(BINARY64, Datum(p))
  {
    TwiceFinite(Datum(p));
    var b := Encode(BINARY64, Add(BINARY64, Mag(BINARY64, Datum(p)), Mag(BINARY64, Datum(p))));
    pp := Words(b);
  }

  lemma TwiceFinite(b: nat)
    requires 0 < b < 0x7fe0_0000 * WORD
    ensures var c := Encode(BINARY64, Add(BINARY64, Mag(BINARY64, b), Mag(BINARY64, b)));
            0 < c < INF && Mag(BINARY64, c) == 2 * Mag(BINARY64, b)
  {
    Constants();
    MagMonotone(BINARY64, 0, b);
    TwiceDatum(BINARY64, b);
  }

  lemma TopBinadeDouble(x: (u32, u32), p: (u32, u32))
    requires Datum(x) < INF && 0x7fdf_ffff < p.0 % SIGN
    ensures Mag(BINARY64, Datum(p)) > 0
    ensures Modulo(Mag(BINARY64, Datum(x)), 2 * Mag(BINARY64, Datum(p))) == Mag(BINARY64, Datum(x))
  {
    Constants();
    MagMonotone(BINARY64, 0, Datum(p));
    TopBinadeReduced(BINARY64, Datum(x), Datum(p));
  }

  /** Line 55. */
  method ReduceTwice(x: (u32, u32), p: (u32, u32)) returns (y: (u32, u32))
    requires Datum(x) < INF && 0 < Datum(p) < INF
    ensures y.0 / SIGN == x.0 / SIGN && Datum(y) < INF
    ensures Mag(BINARY64, Datum(p)) > 0
    ensures Mag(BINARY64, Datum(y)) == Modulo(Mag(BINARY64, Datum(x)), 2 * Mag(BINARY64, Datum(p)))
  {
    if p.0 % SIGN <= 0x7fdf_ffff {
      var pp := Twice(p);
      y := FmodDouble(x, pp);
    } else {
      TopBinadeDouble(x, p);
      y := x;
    }
  }

  /** Lines 71-73: the sign is kept only if the high word of the magnitude is not zero. */
  method RestoreSign(r: int, b: nat, sx: u32) returns (w: (u32, u32))
    requires b < INF && (sx == 0 || sx == SIGN) && (b == 0 <==> r == 0)
    ensures Datum(w) == b
    ensures w.0 / SIGN == if r < 0 && b >= WORD then 1 - sx / SIGN else sx / SIGN
  {
    w := Words(b);
    var hx := w.0;
    if r < 0 { hx := hx + SIGN; }
    if hx % SIGN == 0 { hx := 0; }
    w := ((hx + sx) % 0x1_0000_0000, w.1);
  }

  /** Below 2^52 a datum is its own magnitude, so the high word is zero exactly below 2^32 units. */
  lemma TinyDatum(b: nat)
    ensures b < WORD <==> Mag(BINARY64, b) < WORD
  {
    Constants();
    if b < WORD { Fields(BINARY64, b, 0, b); }
    Fields(BINARY64, WORD, 0, WORD);
    if b > WORD { MagMonotone(BINARY64, WORD, b); }
  }

  /** From fabs on: the halving step and the sign. */
  method Finish(y: (u32, u32), p: (u32, u32), sx: u32) returns (w: (u32, u32))
    requires 0 < Datum(p) < INF && (sx == 0 || sx == SIGN)
    requires Mag(BINARY64, Datum(y)) < 2 * Mag(BINARY64, Datum(p))
    ensures var r := Fold(Mag(BINARY64, Datum(y)), Mag(BINARY64, Datum(p)));
            && Datum(w) < INF && Mag(BINARY64, Datum(w)) == Absolute(r)
            && w.0 / SIGN == if r <= -WORD then 1 - sx / SIGN else sx / SIGN
  {
    Constants();
    var r := Halve(BINARY64, Datum(y), Datum(p));
    var b := Encode(BINARY64, Absolute(r));
    ExponentMonotone(BINARY64, b, Datum(p));
    TinyDatum(b);
    w := RestoreSign(r, b, sx);
  }

  lemma SignWord(w: u32)
    ensures var sx := w / SIGN * SIGN; (sx == 0 || sx == SIGN) && sx / SIGN == w / SIGN
  {
  }

  /** |x| == |p|: the remainder is zero. */
  lemma SignedZero(sx: u32, p: nat)
    requires (sx == 0 || sx == SIGN) && p >= 1
    ensures Remainder(p, p) == 0 && Datum((sx, 0)) == 0 && Mag(BINARY64, 0) == 0
  {
    EqualFoldsToZero(p);
    Constants();
  }

  /** Finite non-zero p. */
  method RemainderFinite(x: (u32, u32), p: (u32, u32)) returns (z: (u32, u32))
    requires Datum(x) < INF && 0 < Datum(p) < INF
    ensures Mag(BINARY64, Datum(p)) > 0
    ensures var r := Remainder(Mag(BINARY64, Datum(x)), Mag(BINARY64, Datum(p)));
            && Datum(z) < INF && Mag(BINARY64, Datum(z)) == Absolute(r)
            && z.0 / SIGN == if r <= -WORD then 1 - x.0 / SIGN else x.0 / SIGN
  {
    var sx: u32 := x.0 / SIGN * SIGN;
    SignWord(x.0);
    var y := ReduceTwice(x, p);
    if Datum(x) == Datum(p) {
      SignedZero(sx, Mag(BINARY64, Datum(p)));
      return (sx, 0);                         // zero*x
    }
    ModuloBelow(Mag(BINARY64, Datum(x)), 2 * Mag(BINARY64, Datum(p)));
    z := Finish(y, p, sx);
  }

  // ---- when the result is right ----

  /** The value of a datum with its sign, in units of the smallest subnormal. */
  function Value(x: (u32, u32)): int {
    if x.0 >= SIGN then 0 - Mag(BINARY64, Datum(x)) else Mag(BINARY64, Datum(x))
  }

  /** z is x REM p: the nearest remainder, with the sign of x when it is zero. */
  ghost predicate IsRem(x: (u32, u32), p: (u32, u32), z: (u32, u32))
    requires Mag(BINARY64, Datum(p)) > 0
  {
    var r := Remainder(Mag(BINARY64, Datum(x)), Mag(BINARY64, Datum(p)));
    && Value(z) == (if x.0 >= SIGN then -r else r)
    && (r == 0 ==> z.0 / SIGN == x.0 / SIGN)
  }

  /** The operands for which line 72 loses the sign, as a test on the reduced dividend: it lies
      less than 2^32 units below |p|, or less than 2^32 units below 2|p| and past 3|p|/2. */
  predicate LosesSign(x: nat, p: nat)
    requires p >= 1
  {
    var y := Modulo(x, 2 * p);
    || (2 * y > p && y < p && p - y < WORD)
    || (2 * y >= 3 * p && 2 * p - y < WORD)
  }

  /** The code returns x REM p if and only if the operands do not lose the sign. */
  lemma RightExactlyWhen(x: (u32, u32), p: (u32, u32), z: (u32, u32))
    requires Mag(BINARY64, Datum(p)) > 0
    requires var r := Remainder(Mag(BINARY64, Datum(x)), Mag(BINARY64, Datum(p)));
             && Mag(BINARY64, Datum(z)) == Absolute(r)
             && z.0 / SIGN == if r <= -WORD then 1 - x.0 / SIGN else x.0 / SIGN
    ensures IsRem(x, p, z) <==> !LosesSign(Mag(BINARY64, Datum(x)), Mag(BINARY64, Datum(p)))
  {
    var X, P := Mag(BINARY64, Datum(x)), Mag(BINARY64, Datum(p));
    ModuloBelow(X, 2 * P);
  }

  /** The double remainder for all operands.  The magnitude is always that of the nearest
      remainder r; a negative r keeps its sign only from 2^32 units on, and the result is x REM p if
      and only if the operands do not lose the sign. */
  method RemainderWords(x: (u32, u32), p: (u32, u32)) returns (z: Returned<(u32, u32)>)
    ensures z == NaN <==> Invalid(x, p)
    ensures z != NaN && Datum(p) == INF ==> z.bits == x
    ensures z != NaN && Datum(p) < INF ==>
              && Mag(BINARY64, Datum(p)) > 0
              && var r := Remainder(Mag(BINARY64, Datum(x)), Mag(BINARY64, Datum(p)));
                 && Datum(z.bits) < INF && Mag(BINARY64, Datum(z.bits)) == Absolute(r)
                 && z.bits.0 / SIGN == if r <= -WORD then 1 - x.0 / SIGN else x.0 / SIGN
    ensures z != NaN && Datum(p) < INF ==>
              (IsRem(x, p, z.bits) <==> !LosesSign(Mag(BINARY64, Datum(x)), Mag(BINARY64, Datum(p))))
  {
    if Datum(p) == 0 { return NaN; }
    if Datum(x) >= INF || Datum(p) > INF { return NaN; }
    if Datum(p) == INF {
      // no reduction, x > p_half is false, and the sign is stripped and restored
      return Number(x);
    }
    var w := RemainderFinite(x, p);
    RightExactlyWhen(x, p, w);
    z := Number(w);
  }

  /** 3 * 2^-1074 REM 4 * 2^-1074 is -1 * 2^-1074, but the code answers +1 * 2^-1074. */
  method SmallestExample() returns (z: Returned<(u32, u32)>)
    ensures z == Number((0, 1))
    ensures Mag(BINARY64, 3) == 3 && Mag(BINARY64, 4) == 4 && Mag(BINARY64, 1) == 1 && IsNearest(3, 4, -1)
  {
    ThreeAndFour();
    z := RemainderWords((0, 3), (0, 4));
    if z.Number? { SmallestDatum(z.bits); }
  }

  lemma ThreeAndFour()
    ensures Mag(BINARY64, 3) == 3 && Mag(BINARY64, 4) == 4 && Mag(BINARY64, 1) == 1
    ensures Remainder(3, 4) == -1 && IsNearest(3, 4, -1) && LosesSign(3, 4)
  {
    Constants();
    Fields(BINARY64, 1, 0, 1);
    Fields(BINARY64, 3, 0, 3);
    Fields(BINARY64, 4, 0, 4);
    FoldIsNearest(3, 4);
  }

  /** Only one datum has magnitude one. */
  lemma SmallestDatum(w: (u32, u32))
    requires Mag(BINARY64, Datum(w)) == 1 && w.0 / SIGN == 0
    ensures w == (0, 1)
  {
    EncodeMag(BINARY64, Datum(w));
    ThreeAndFour();
    EncodeMag(BINARY64, 1);
  }
}
