/** Machine words as naturals.

    `x >> k` is `Shr(x, k)`, that is `x / Pow2(k)`, `x & (2^k - 1)` is `Low(x, k)`, that is
    `x % Pow2(k)`, and `x << k`
    on a w-bit word is `x * Pow2(k) % Pow2(w)`.  Bitwise or is the function `Or`: an or of
    words that share no set bit has to be *proved* to be a sum. */
module Bits {

  type u32 = x: int | 0 <= x < 0x1_0000_0000
  type i32 = x: int | -0x8000_0000 <= x < 0x8000_0000

  /** The signed reading of a 32-bit word. */
  function Signed32(w: u32): i32 {
    if w < 0x8000_0000 then w else w - 0x1_0000_0000
  }

  /** A signed counter up or down by one, wrapping around like the machine's. */
  function AddWrap(c: i32, d: int): i32
    requires -1 <= d <= 1
  {
    if c + d > 0x7fff_ffff then -0x8000_0000 else if c + d < -0x8000_0000 then 0x7fff_ffff else c + d
  }

  function Pow2(n: nat): (p: nat)
    ensures p >= 1
  {
    if n == 0 then 1 else 2 * Pow2(n - 1)
  }

  lemma {:induction false} Pow2Add(a: nat, b: nat)
    ensures Pow2(a + b) == Pow2(a) * Pow2(b)
  {
    if a != 0 {
      Pow2Add(a - 1, b);
      assert Pow2(a + b) == 2 * Pow2(a - 1 + b);
    }
  }

  lemma Pow2Monotone(a: nat, b: nat)
    requires a <= b
    ensures Pow2(a) <= Pow2(b)
    ensures a < b ==> 2 * Pow2(a) <= Pow2(b)
  {
    if a < b {
      Pow2Monotone(a, b - 1);
    }
  }

  lemma Pow2Halves(j: nat)
    ensures j >= 1 ==> Pow2(j) % 2 == 0 && Pow2(j) / 2 == Pow2(j - 1)
    ensures j == 0 ==> Pow2(j) == 1 && Pow2(j) / 2 == 0
  {
  }

  lemma Pow2Constants()
    ensures Pow2(1) == 2 && Pow2(11) == 0x800 && Pow2(20) == 0x10_0000 && Pow2(21) == 0x20_0000
    ensures Pow2(22) == 0x40_0000 && Pow2(23) == 0x80_0000 && Pow2(24) == 0x100_0000
    ensures Pow2(31) == 0x8000_0000 && Pow2(32) == 0x1_0000_0000
    ensures Pow2(52) == 0x10_0000_0000_0000
  {
    assert Pow2(4) == 16;
    Pow2Add(4, 4);
    Pow2Add(8, 2);
    Pow2Add(10, 1);
    Pow2Add(10, 10);
    Pow2Add(20, 11);
    Pow2Add(20, 32);
  }

  lemma EvenHalf(a: int, b: int)
    requires a == 2 * b
    ensures a % 2 == 0 && a / 2 == b
  {
  }

  lemma EvenPlus(d: int, x: int)
    ensures (2 * d + x) % 2 == x % 2
  {
  }

  /** Bitwise or. */
  function Or(a: nat, b: nat): nat {
    if a == 0 then b
    else if b == 0 then a
    else 2 * Or(a / 2, b / 2) + (if a % 2 == 1 || b % 2 == 1 then 1 else 0)
  }

  lemma HalfMultiple(a: nat, k: nat)
    requires k >= 1 && a % Pow2(k) == 0
    ensures a % 2 == 0 && (a / 2) % Pow2(k - 1) == 0
  {
    var p := Pow2(k - 1);
    var c := a / Pow2(k);
    assert a == c * (2 * p);
    assert a == 2 * (c * p);
    assert a / 2 == c * p;
    MultipleMod(c, p);
  }

  lemma MultipleMod(c: nat, p: nat)
    requires p >= 1
    ensures (c * p) % p == 0 && c * p / p == c
  {
    DivModUnique(c * p, p, c, 0);
  }

  lemma MulAssociates(a: int, b: int, c: int)
    ensures a * (b * c) == (a * b) * c
  {
  }

  lemma MulDouble(a: int, b: int)
    ensures a * (2 * b) == 2 * (a * b)
  {
  }

  lemma MulAtLeast(k: int, d: int)
    requires d >= 1
    ensures k >= 1 ==> k * d >= d
    ensures k <= -1 ==> k * d <= -d
  {
  }

  /** Quotient and remainder are determined by n == q * d + r with 0 <= r < d. */
  lemma DivModUnique(n: int, d: nat, q: int, r: int)
    requires d >= 1 && n == q * d + r && 0 <= r < d
    ensures n / d == q && n % d == r
  {
    var q', r' := n / d, n % d;
    var k := q - q';
    assert k * d == r' - r by {
      assert q * d - q' * d == k * d;
    }
    MulAtLeast(k, d);
  }

  /** An or of words without common bits is a sum: a is a multiple of 2^k and b fits below it. */
  lemma {:induction false} OrDisjoint(a: nat, b: nat, k: nat)
    requires a % Pow2(k) == 0 && b < Pow2(k)
    ensures Or(a, b) == a + b
  {
    if a != 0 && b != 0 {
      HalfMultiple(a, k);
      OrDisjoint(a / 2, b / 2, k - 1);
    }
  }

  lemma {:induction false} OrCommutes(a: nat, b: nat)
    ensures Or(a, b) == Or(b, a)
  {
    if a != 0 && b != 0 { OrCommutes(a / 2, b / 2); }
  }

  lemma {:induction false} OrBound(a: nat, b: nat, k: nat)
    requires a < Pow2(k) && b < Pow2(k)
    ensures Or(a, b) < Pow2(k)
  {
    if a != 0 && b != 0 { OrBound(a / 2, b / 2, k - 1); }
  }

  /** An operand that is zero below bit k leaves those bits of the other one alone. */
  lemma {:induction false} OrKeepsLow(a: nat, b: nat, k: nat)
    requires b % Pow2(k) == 0
    ensures Or(a, b) % Pow2(k) == a % Pow2(k)
  {
    if a == 0 {
    } else if b != 0 && k != 0 {
      HalfMultiple(b, k);
      OrKeepsLow(a / 2, b / 2, k - 1);
      assert Or(a, b) == 2 * Or(a / 2, b / 2) + a % 2;
      ModPow2Step(Or(a, b), k);
      ModPow2Step(a, k);
    }
  }

  lemma ModPow2Step(n: nat, k: nat)
    requires k >= 1
    ensures n % Pow2(k) == 2 * (n / 2 % Pow2(k - 1)) + n % 2
  {
    var p := Pow2(k - 1);
    var q, r := n / 2 / p, n / 2 % p;
    assert n / 2 == q * p + r;
    assert n == q * (2 * p) + (2 * r + n % 2);
    DivModUnique(n, 2 * p, q, 2 * r + n % 2);
  }

  lemma {:induction false} OrZero(a: nat, b: nat)
    ensures Or(a, b) == 0 <==> a == 0 && b == 0
  {
    if a != 0 && b != 0 { OrZero(a / 2, b / 2); }
  }

  /** x * 2^k, one bit at a time. */
  function Scale(x: nat, k: nat): nat {
    if k == 0 then x else 2 * Scale(x, k - 1)
  }

  lemma {:induction false} ScaleIsProduct(x: nat, k: nat)
    ensures Scale(x, k) == x * Pow2(k)
  {
    if k != 0 {
      ScaleIsProduct(x, k - 1);
      MulDouble(x, Pow2(k - 1));
    }
  }

  /** x >> k, one bit at a time. */
  function Shr(n: nat, k: nat): nat {
    if k == 0 then n else Shr(n / 2, k - 1)
  }

  /** The k low bits, x & (2^k - 1). */
  function Low(n: nat, k: nat): nat {
    if k == 0 then 0 else 2 * Low(n / 2, k - 1) + n % 2
  }

  lemma {:induction false} ShrLow(n: nat, k: nat)
    ensures n == Shr(n, k) * Pow2(k) + Low(n, k) && Low(n, k) < Pow2(k)
  {
    if k != 0 {
      ShrLow(n / 2, k - 1);
      MulDouble(Shr(n, k), Pow2(k - 1));
    }
  }

  lemma ShrRest(n: nat, k: nat) returns (rest: nat)
    ensures n == Shr(n, k) * Pow2(k) + rest && rest < Pow2(k) && rest == Low(n, k)
  {
    ShrLow(n, k);
    rest := Low(n, k);
  }

  lemma ShrIsDivision(n: nat, k: nat)
    ensures Shr(n, k) == n / Pow2(k)
  {
    var rest := ShrRest(n, k);
    DivModUnique(n, Pow2(k), Shr(n, k), rest);
  }

  /** The top part of an or is the or of the top parts. */
  lemma {:induction false} OrShift(a: nat, b: nat, k: nat)
    ensures Shr(Or(a, b), k) == Or(Shr(a, k), Shr(b, k))
  {
    if k != 0 {
      assert Or(a, b) / 2 == Or(a / 2, b / 2);
      OrShift(a / 2, b / 2, k - 1);
    }
  }

  lemma {:induction false} ShrAtMost(x: nat, n: nat)
    ensures Shr(x, n) <= x
  {
    if n != 0 { ShrAtMost(x / 2, n - 1); }
  }

  lemma {:induction false} ScaleNext(x: nat, k: nat)
    ensures Scale(x + 1, k) == Scale(x, k) + Pow2(k)
  {
    if k != 0 { ScaleNext(x, k - 1); }
  }

  lemma {:induction false} ScaleAdd(x: nat, a: nat, b: nat)
    ensures Scale(Scale(x, a), b) == Scale(x, a + b)
  {
    if b != 0 { ScaleAdd(x, a, b - 1); }
  }

  lemma {:induction false} ScaleAtLeast(x: nat, k: nat, j: nat)
    requires x >= 1 && j <= k
    ensures Scale(x, k) >= Pow2(j) && Scale(x, k) >= x
  {
    if k != 0 { ScaleAtLeast(x, k - 1, if j == 0 then 0 else j - 1); }
  }

  lemma {:induction false} ScaleStrict(a: nat, b: nat, k: nat)
    ensures a < b <==> Scale(a, k) < Scale(b, k)
    ensures a == b <==> Scale(a, k) == Scale(b, k)
  {
    if k != 0 { ScaleStrict(a, b, k - 1); }
  }

  /** A multiple of 2^k below another one leaves room for every smaller number. */
  lemma {:induction false} ScaleGap(a: nat, b: nat, k: nat, c: nat)
    requires Scale(a, k) < Scale(b, k) && c < Pow2(k)
    ensures Scale(a, k) + c < Scale(b, k)
  {
    if k != 0 { ScaleGap(a, b, k - 1, c / 2); }
  }

  lemma {:induction false} ScaleMultiple(a: nat, k: nat)
    ensures Scale(a, k) % Pow2(k) == 0
  {
    ScaleIsProduct(a, k);
    MultipleMod(a, Pow2(k));
  }

  lemma {:induction false} ShrScale(a: nat, k: nat)
    ensures Shr(Scale(a, k), k) == a
  {
    if k != 0 {
      assert Scale(a, k) / 2 == Scale(a, k - 1);
      ShrScale(a, k - 1);
    }
  }

  lemma {:induction false} ShrAdd(x: nat, a: nat, b: nat)
    ensures Shr(Shr(x, a), b) == Shr(x, a + b)
  {
    if a != 0 { ShrAdd(x / 2, a - 1, b); }
  }

  /** Shifting right is determined by n == q * 2^k + rest. */
  lemma ShrUnique(n: nat, k: nat, q: nat, rest: nat)
    requires n == q * Pow2(k) + rest && rest < Pow2(k)
    ensures Shr(n, k) == q && Low(n, k) == rest
  {
    ShrIsDivision(n, k);
    ShrLow(n, k);
    DivModUnique(n, Pow2(k), q, rest);
    DivModUnique(n, Pow2(k), Shr(n, k), Low(n, k));
  }

  lemma {:induction false} ShrMonotone(a: nat, b: nat, k: nat)
    requires a <= b
    ensures Shr(a, k) <= Shr(b, k)
  {
    if k != 0 { ShrMonotone(a / 2, b / 2, k - 1); }
  }

  /** Whether the or of two words is zero. */
  method BothZero(a: nat, b: nat) returns (zero: bool)
    ensures zero <==> a == 0 && b == 0
  {
    OrZero(a, b);
    zero := Or(a, b) == 0;
  }
}
