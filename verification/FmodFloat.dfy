/** openlibm/src/e_fmodf.c: the exact remainder over one word. */
module FmodFloat {
  import opened Bits
  import opened Ieee754
  import opened FloatWords
  import opened ExactRemainder

  /** What the ilogb computation establishes. */
  ghost predicate IsLog(h: nat, ix: int) {
    if h >= 0x80_0000 then ix == h / 0x80_0000 - 127
    else ix < -126 && 0x80_0000 <= Scale(h, -126 - ix) < 0x100_0000
  }

  /** e_fmodf.c lines 51-53.  The loop for y tests i >= 0 instead, which is the same while no bit has been lost. */
  method Ilogb(h: u32) returns (ix: i32)
    requires 0 < h < INF
    ensures IsLog(h, ix) && ix <= 127
  {
    if h < 0x80_0000 {
      ix := -126;
      var i: u32 := h * 0x100;
      ghost var s := 0;
      while 0 < i < 0x8000_0000
        invariant ix == -126 - s && i == 0x100 * Scale(h, s) && 0 < i
        invariant s == 0 ==> i < 0x8000_0000
        invariant ix >= -0x8000
        decreases 0x1_0000_0000 - i
      {
        ShiftCount(h, s);
        ix := ix - 1;
        i := i * 2;
        s := s + 1;
      }
    } else {
      ix := h / 0x80_0000 - 127;
    }
  }

  lemma ShiftCount(h: nat, s: nat)
    requires h >= 1 && Scale(h, s) < 0x80_0000
    ensures s < 23
  {
    Pow2Constants();
    if s >= 23 { ScaleAtLeast(h, s, 23); }
  }

  /** e_fmodf.c lines 61-66: alignment. */
  method Align(h: u32, ix: i32) returns (m: u32)
    requires 0 < h < INF && IsLog(h, ix)
    ensures Normalized(BINARY32, Mag(BINARY32, h), m, ix + 127)
    ensures 0x80_0000 <= m < 0x100_0000
  {
    AlignedValue(h, ix);
    if ix >= -126 {
      m := Or(0x80_0000, h % 0x80_0000);
    } else {
      m := Scale(h, -126 - ix);
    }
  }

  lemma AlignedValue(h: u32, ix: int)
    requires 0 < h < INF && IsLog(h, ix)
    ensures ix >= -126 ==> h >= 0x80_0000 && Or(0x80_0000, h % 0x80_0000) == 0x80_0000 + h % 0x80_0000
    ensures Normalized(BINARY32, Mag(BINARY32, h),
                       if ix >= -126 then 0x80_0000 + h % 0x80_0000 else Scale(h, -126 - ix), ix + 127)
  {
    FloatConstants();
    if h >= 0x80_0000 {
      OrDisjoint(0x80_0000, h % 0x80_0000, 23) by { Pow2Constants(); }
      Fields(BINARY32, h, h / 0x80_0000, h % 0x80_0000);
      NormalFields(BINARY32, h);
    } else {
      Fields(BINARY32, h, 0, h);
      SubnormalShift(BINARY32, h, -126 - ix);
    }
  }

  /** The fixed-point loop, with its early exit when the difference is zero. */
  method Reduce(mx: i32, my: i32, d: nat) returns (hx: i32)
    requires 0x80_0000 <= mx < 0x100_0000 && 0x80_0000 <= my < 0x100_0000
    ensures 0 <= hx < my && hx == Scale(mx, d) % my
  {
    var n := d;
    var hz: i32;
    ghost var k := 0;
    hx := mx;
    while n != 0
      invariant 0 <= n && n + k == d && 0 <= hx < 2 * my
      invariant hx % my == Scale(mx, k) % my
      decreases n
    {
      n := n - 1;
      ReduceStep(hx, mx, k, my);
      hz := hx - my;
      if hz < 0 {
        hx := hx + hx;
      } else {
        if hz == 0 {
          StaysZero(mx, k, d, my);
          return 0;
        }
        hx := hz + hz;
      }
      k := k + 1;
    }
    ReduceLast(hx, my);
    hz := hx - my;
    if hz >= 0 { hx := hz; }
  }

  /** e_fmodf.c lines 91-94. */
  method Renormalise(x: i32, y: i32, ghost mag: nat) returns (hx: i32, iy: i32)
    requires 0 < x < 0x100_0000 && SameValue(BINARY32, mag, x, y + 127) && y <= 127
    ensures 0x80_0000 <= hx < 0x100_0000 && iy <= y && -149 <= iy
    ensures Normalized(BINARY32, mag, hx, iy + 127)
  {
    hx, iy := x, y;
    FloatConstants();
    while hx < 0x80_0000
      invariant 0 < hx < 0x100_0000 && iy <= y && -149 <= iy
      invariant SameValue(BINARY32, mag, hx, iy + 127)
      decreases 0x100_0000 - hx
    {
      NormaliseStep(BINARY32, mag, hx, iy + 127);
      hx := hx + hx;
      iy := iy - 1;
    }
  }

  /** Packing, normal or subnormal. */
  method Pack(m: i32, iy: i32, ghost mag: nat) returns (hx: u32)
    requires 0x80_0000 <= m < 0x100_0000 && -149 <= iy <= 127 && Normalized(BINARY32, mag, m, iy + 127)
    ensures hx < INF && Mag(BINARY32, hx) == mag
  {
    PackedValue(m, iy, mag);
    if iy >= -126 {
      hx := Or(m - 0x80_0000, (iy + 127) * 0x80_0000);
    } else {
      hx := Shr(m, -126 - iy);
    }
  }

  lemma PackedValue(m: nat, iy: int, mag: nat)
    requires 0x80_0000 <= m < 0x100_0000 && -149 <= iy <= 127 && Normalized(BINARY32, mag, m, iy + 127)
    ensures iy >= -126 ==> Or(m - 0x80_0000, (iy + 127) * 0x80_0000) == (iy + 126) * 0x80_0000 + m
    ensures iy >= -126 ==> Mag(BINARY32, (iy + 126) * 0x80_0000 + m) == mag
    ensures iy < -126 ==> Shr(m, -126 - iy) == mag < 0x80_0000 && Mag(BINARY32, mag) == mag
  {
    FloatConstants();
    if iy >= -126 {
      Pow2Constants();
      OrCommutes(m - 0x80_0000, (iy + 127) * 0x80_0000);
      OrDisjoint((iy + 127) * 0x80_0000, m - 0x80_0000, 23);
      EncodeNormal(BINARY32, mag, m, iy + 127);
    } else {
      EncodeSubnormal(BINARY32, mag, m, iy + 127);
    }
  }

  /** The remainder of the magnitudes, for |x| > |y| > 0 finite. */
  method FmodFinite(x: u32, y: u32) returns (hx: u32)
    requires 0 < y < x < INF
    ensures Mag(BINARY32, y) > 0 && hx < INF
    ensures Mag(BINARY32, hx) == Modulo(Mag(BINARY32, x), Mag(BINARY32, y))
  {
    ghost var X, Y := Mag(BINARY32, x), Mag(BINARY32, y);
    var ix := Ilogb(x);
    var iy := Ilogb(y);
    var mx := Align(x, ix);
    var my := Align(y, iy);
    Operands(x, y, mx, ix, my, iy);
    RemainderValue(BINARY32, X, mx, ix + 127, Y, my, iy + 127);
    ModuloIsRemainder(X, Y);
    ghost var rest := Modulo(X, Y);
    var m := Reduce(mx, my, ix - iy);
    if m == 0 {
      ZeroValue(BINARY32, rest, iy + 127);
      ZeroDatum();
      return 0;
    }
    m, iy := Renormalise(m, iy, rest);
    hx := Pack(m, iy, rest);
  }

  lemma ZeroDatum()
    ensures Mag(BINARY32, 0) == 0
  {
    Fields(BINARY32, 0, 0, 0);
  }

  lemma Operands(x: nat, y: nat, mx: nat, ix: int, my: nat, iy: int)
    requires y < x
    requires Normalized(BINARY32, Mag(BINARY32, x), mx, ix + 127)
    requires Normalized(BINARY32, Mag(BINARY32, y), my, iy + 127)
    ensures iy <= ix && Mag(BINARY32, y) > 0
  {
    MagMonotone(BINARY32, y, x);
    NormalizedPositive(BINARY32, Mag(BINARY32, y), my, iy + 127);
    if ix < iy { NormalizedOrder(BINARY32, Mag(BINARY32, x), mx, ix + 127, Mag(BINARY32, y), my, iy + 127); }
  }

  /** Which operands make the result a NaN. */
  ghost predicate Invalid(x: u32, y: u32) {
    y % 0x8000_0000 == 0 || x % 0x8000_0000 >= INF || y % 0x8000_0000 > INF
  }

  /** fmodf for all operands: sign of x, magnitude |x| mod |y|. */
  method Fmodf(x: u32, y: u32) returns (r: Returned<u32>)
    ensures r == NaN <==> Invalid(x, y)
    ensures r != NaN ==>
              && r.bits / 0x8000_0000 == x / 0x8000_0000 && r.bits % 0x8000_0000 < INF
              && Mag(BINARY32, y % 0x8000_0000) > 0
              && Mag(BINARY32, r.bits % 0x8000_0000)
                 == Modulo(Mag(BINARY32, x % 0x8000_0000), Mag(BINARY32, y % 0x8000_0000))
  {
    var sx: u32 := x / 0x8000_0000 * 0x8000_0000;
    SignWord(x);
    var hx: u32, hy: u32 := x - sx, y % 0x8000_0000;
    if hy == 0 || hx >= INF || hy > INF { return NaN; }
    MagOrder(hx, hy);
    if hx < hy { return Number(x); }
    if hx == hy { return Number(sx); }
    hx := FmodFinite(hx, hy);
    SetSign(hx, sx);
    r := Number(Or(hx, sx));
  }

  lemma SetSign(h: nat, sx: nat)
    requires h < 0x8000_0000 && (sx == 0 || sx == 0x8000_0000)
    ensures Or(h, sx) == h + sx
    ensures (h + sx) / 0x8000_0000 == sx / 0x8000_0000 && (h + sx) % 0x8000_0000 == h
  {
    Pow2Constants();
    OrCommutes(h, sx);
    OrDisjoint(sx, h, 31);
  }

  lemma SignWord(x: u32)
    ensures var sx := x / 0x8000_0000 * 0x8000_0000;
      && (sx == 0 || sx == 0x8000_0000) && sx / 0x8000_0000 == x / 0x8000_0000
      && sx % 0x8000_0000 == 0 && x - sx == x % 0x8000_0000
  {
  }

  /** The two early returns. */
  lemma MagOrder(x: nat, y: nat)
    requires y > 0
    ensures Mag(BINARY32, y) > 0
    ensures x < y ==> Modulo(Mag(BINARY32, x), Mag(BINARY32, y)) == Mag(BINARY32, x)
    ensures x == y ==> Modulo(Mag(BINARY32, x), Mag(BINARY32, y)) == 0 == Mag(BINARY32, 0)
  {
    ZeroDatum();
    MagMonotone(BINARY32, 0, y);
    if x < y { MagMonotone(BINARY32, x, y); }
  }
}
