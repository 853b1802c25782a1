/** openlibm/src/e_remainderf.c: round-half-even reduction on top of fmodf. */
module RemainderFloat {
  import opened Bits
  import opened Ieee754
  import opened FloatWords
  import opened FloatArith
  import opened NearestRemainder
  import opened ExactRemainder
  import FmodFloat

  function Datum(x: u32): u32 {
    x % SIGN
  }

  ghost predicate Invalid(x: u32, p: u32) {
    Datum(p) == 0 || Datum(x) >= INF || Datum(p) > INF
  }

  lemma PositiveDatum(b: nat)
    requires b > 0
    ensures Mag(BINARY32, b) > 0
  {
    MagMonotone(BINARY32, 0, b);
  }

  /** p + p as a word. */
  method Twice(h: u32) returns (pp: u32)
    requires 0 < h <= 0x7eff_ffff
    ensures 0 < pp < INF && Mag(BINARY32, pp) == 2 * Mag(BINARY32, h)
  {
    TwiceFinite(h);
    pp := Encode(BINARY32, Add(BINARY32, Mag(BINARY32, h), Mag(BINARY32, h)));
  }

  lemma TwiceFinite(h: nat)
    requires 0 < h <= 0x7eff_ffff
    ensures var c := Encode(BINARY32, Add(BINARY32, Mag(BINARY32, h), Mag(BINARY32, h)));
            0 < c < INF && Mag(BINARY32, c) == 2 * Mag(BINARY32, h)
  {
    FloatConstants();
    FmodFloat.ZeroDatum();
    PositiveDatum(h);
    TwiceDatum(BINARY32, h);
  }

  lemma TopBinadeFloat(x: u32, h: u32)
    requires x < INF && h > 0x7eff_ffff
    ensures Mag(BINARY32, h) > 0 && Modulo(Mag(BINARY32, x), 2 * Mag(BINARY32, h)) == Mag(BINARY32, x)
  {
    FloatConstants();
    TopBinadeReduced(BINARY32, x, h);
    AlreadyReduced(Mag(BINARY32, x), Mag(BINARY32, h));
  }

  lemma Divisible(x: u32, pp: u32)
    requires Datum(x) < INF && 0 < pp < INF
    ensures Datum(pp) == pp && !FmodFloat.Invalid(x, pp)
  {
  }

  /** Line 46: now |x| < 2|p|, congruent modulo 2|p|. */
  method ReduceTwice(x: u32, h: u32) returns (y: u32)
    requires Datum(x) < INF && 0 < h < INF
    ensures Mag(BINARY32, h) > 0
    ensures Mag(BINARY32, Datum(y)) == Modulo(Mag(BINARY32, Datum(x)), 2 * Mag(BINARY32, h))
    ensures y / SIGN == x / SIGN
  {
    if h <= 0x7eff_ffff {
      var pp := Twice(h);
      Divisible(x, pp);
      var r := FmodFloat.Fmodf(x, pp);
      y := r.bits;
    } else {
      TopBinadeFloat(Datum(x), h);
      y := x;
    }
  }

  /** The word of the signed value r, with the sign of x put back by exclusive or; a zero loses its
      own sign first, so it takes the sign of x. */
  method RestoreSign(r: int, b: u32, sx: u32) returns (w: u32)
    requires b < INF && (sx == 0 || sx == SIGN) && (b == 0 <==> r == 0)
    ensures Datum(w) == b
    ensures w / SIGN == if r < 0 then 1 - sx / SIGN else sx / SIGN
  {
    var hx: u32 := if r < 0 then b + SIGN else b;
    if hx % SIGN == 0 { hx := 0; }
    w := (hx + sx) % 0x1_0000_0000;
  }

  /** Finite non-zero p. */
  method RemainderFinite(x: u32, hp: u32) returns (w: u32)
    requires Datum(x) < INF && 0 < hp < INF
    ensures Mag(BINARY32, hp) > 0
    ensures var r := Remainder(Mag(BINARY32, Datum(x)), Mag(BINARY32, hp));
            && Datum(w) < INF && Mag(BINARY32, Datum(w)) == Absolute(r)
            && w / SIGN == if r < 0 then 1 - x / SIGN else x / SIGN
  {
    var sx: u32 := x / SIGN * SIGN;
    var y := ReduceTwice(x, hp);
    if Datum(x) == hp {
      EqualFoldsToZero(Mag(BINARY32, hp));
      FmodFloat.ZeroDatum();
      return sx;                         // zero*x
    }
    ModuloBelow(Mag(BINARY32, Datum(x)), 2 * Mag(BINARY32, hp));
    w := Finish(Datum(y), hp, sx);
  }

  /** remainderf for all operands: NaN exactly for invalid operands, x itself for infinite p, and
      otherwise the nearest remainder with the sign of x on a zero. */
  method Remainderf(x: u32, p: u32) returns (z: Returned<u32>)
    ensures z == NaN <==> Invalid(x, p)
    ensures z != NaN && Datum(p) == INF ==> z.bits == x
    ensures z != NaN && Datum(p) < INF ==>
              && Mag(BINARY32, Datum(p)) > 0
              && var r := Remainder(Mag(BINARY32, Datum(x)), Mag(BINARY32, Datum(p)));
                 && Datum(z.bits) < INF && Mag(BINARY32, Datum(z.bits)) == Absolute(r)
                 && z.bits / SIGN == if r < 0 then 1 - x / SIGN else x / SIGN
  {
    if Datum(p) == 0 { return NaN; }
    if Datum(x) >= INF || Datum(p) > INF { return NaN; }
    if Datum(p) == INF {
      // no reduction, x > p_half is false, and the sign is stripped and restored
      return Number(x);
    }
    var w := RemainderFinite(x, Datum(p));
    z := Number(w);
  }

  /** From fabs on: the halving step and the sign. */
  method Finish(hx: u32, hp: u32, sx: u32) returns (w: u32)
    requires 0 < hp < INF && (sx == 0 || sx == SIGN)
    requires Mag(BINARY32, hx) < 2 * Mag(BINARY32, hp)
    ensures var r := Fold(Mag(BINARY32, hx), Mag(BINARY32, hp));
            && Datum(w) < INF && Mag(BINARY32, Datum(w)) == Absolute(r)
            && w / SIGN == if r < 0 then 1 - sx / SIGN else sx / SIGN
  {
    FmodFloat.ZeroDatum();
    var r := Halve(BINARY32, hx, hp);
    ExponentMonotone(BINARY32, Encode(BINARY32, Absolute(r)), hp);
    w := RestoreSign(r, Encode(BINARY32, Absolute(r)), sx);
  }
}
