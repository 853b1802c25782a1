/** A number held in two machine words of w bits: high * 2^w + low. */
module WordPairs {
  import opened Bits

  function Join(w: nat, hi: int, lo: int): int {
    hi * Pow2(w) + lo
  }

  lemma SplitProduct(x: nat, p: nat, d: nat, c: nat, rest: nat)
    requires p >= 1 && x == c * d + rest && rest < d && x < p * d
    ensures c < p && x * p == c * (p * d) + rest * p && 0 <= rest * p < p * d
  {
    MulAtLeast(d - rest, p);
    Distribute(d - rest, rest, p);
    if c >= p { MulAtLeast(c - p + 1, d); Distribute(c - p, p, d); Distribute(c - p, 1, d); }
    Distribute(c * d, rest, p);
    MulAssociates(c, d, p);
  }

  lemma Distribute(a: int, b: int, c: int)
    ensures (a + b) * c == a * c + b * c
  {
  }

  /** The bits that a left shift by n moves out of a word are its n top bits. */
  lemma ShiftOut(w: nat, x: nat, n: nat)
    requires n <= w && x < Pow2(w)
    ensures Shr(x, w - n) < Pow2(n)
    ensures Scale(x, n) == Shr(x, w - n) * Pow2(w) + Scale(x, n) % Pow2(w)
  {
    var p, d := Pow2(n), Pow2(w - n);
    Pow2Add(n, w - n);
    var rest := ShrRest(x, w - n);
    var c := Shr(x, w - n);
    ScaleIsProduct(x, n);
    SplitProduct(x, p, d, c, rest);
    var y, b, low := x * p, p * d, rest * p;
    DivModUnique(y, b, c, low);
  }

  /** Shifting both words left, with the bits that cross over, shifts the pair by n places. */
  lemma ShiftPair(w: nat, hi: nat, lo: nat, n: nat)
    requires n <= w && lo < Pow2(w)
    ensures Or(Scale(hi, n), Shr(lo, w - n)) == Scale(hi, n) + Shr(lo, w - n)
    ensures Shr(lo, w - n) < Pow2(n)
    ensures Join(w, Or(Scale(hi, n), Shr(lo, w - n)), Scale(lo, n) % Pow2(w)) == Scale(Join(w, hi, lo), n)
  {
    ShiftOut(w, lo, n);
    ScaleMultiple(hi, n);
    OrDisjoint(Scale(hi, n), Shr(lo, w - n), n);
    ScaleJoin(w, hi, lo, n);
    Distribute(Scale(hi, n), Shr(lo, w - n), Pow2(w));
  }

  lemma {:induction false} ScaleJoin(w: nat, hi: nat, lo: nat, n: nat)
    ensures Scale(Join(w, hi, lo), n) == Join(w, Scale(hi, n), Scale(lo, n))
  {
    if n != 0 { ScaleJoin(w, hi, lo, n - 1); }
  }

  /** Doubling both words, with the carry, doubles the pair. */
  lemma DoublePair(w: nat, hi: nat, lo: nat)
    requires w >= 1 && lo < Pow2(w)
    ensures Join(w, hi + hi + Shr(lo, w - 1), (lo + lo) % Pow2(w)) == 2 * Join(w, hi, lo)
    ensures Shr(lo, w - 1) <= 1
  {
    assert Scale(lo, 1) == 2 * Scale(lo, 0);
    assert Pow2(1) == 2 * Pow2(0);
    ShiftOut(w, lo, 1);
    Distribute(hi + hi, Shr(lo, w - 1), Pow2(w));
    Distribute(hi, hi, Pow2(w));
  }

  /** Subtracting both words, with the borrow, is the difference of the pairs. */
  lemma SubtractPair(w: nat, hx: int, lx: nat, hy: int, ly: nat)
    requires lx < Pow2(w) && ly < Pow2(w)
    ensures var hz, lz := hx - hy - (if lx < ly then 1 else 0), (lx - ly) % Pow2(w);
            && Join(w, hz, lz) == Join(w, hx, lx) - Join(w, hy, ly)
            && 0 <= lz < Pow2(w)
            && (hz < 0 <==> Join(w, hx, lx) < Join(w, hy, ly))
  {
    var b := Pow2(w);
    ModOnce(lx - ly, b);
    var hz, lz := hx - hy - (if lx < ly then 1 else 0), (lx - ly) % b;
    Distribute(hx, -hy, b);
    Distribute(hx - hy, -1, b);
    assert (-hy) * b == -(hy * b);
    SignOfPair(w, hz, lz);
  }

  lemma ModOnce(x: int, b: nat)
    requires x < b && -x < b
    ensures x % b == if x < 0 then x + b else x
  {
    if x < 0 { DivModUnique(x, b, -1, x + b); } else { DivModUnique(x, b, 0, x); }
  }

  /** The sign of a pair is the sign of its high word. */
  lemma SignOfPair(w: nat, hi: int, lo: nat)
    requires lo < Pow2(w)
    ensures hi < 0 <==> Join(w, hi, lo) < 0
  {
    MulAtLeast(hi, Pow2(w));
  }

  /** Comparing a high word with u compares the pair with u * 2^w. */
  lemma CompareHigh(w: nat, hi: int, lo: nat, u: int)
    requires lo < Pow2(w)
    ensures hi < u <==> Join(w, hi, lo) < u * Pow2(w)
  {
    Distribute(hi, -u, Pow2(w));
    SignOfPair(w, hi - u, lo);
  }

  /** The product form of splitting hi = a * p + r: the words of the pair shifted right. */
  lemma SplitHighWord(hi: nat, a: nat, r: nat, p: nat, d: nat)
    requires hi == a * p + r && r < p && d >= 1
    ensures hi * d == a * (p * d) + r * d && r * d < p * d && r * d + d <= p * d
    ensures hi * (p * d) == (a * (p * d) + r * d) * p
  {
    Distribute(a * p, r, d);
    MulAssociates(a, p, d);
    MulAtLeast(p - r, d);
    Distribute(p - r, r, d);
    MulAssociates(hi, d, p);
    assert p * d == d * p;
  }

  /** Shifting both words right, with the bits that cross over, shifts the pair right by n places. */
  lemma ShiftPairRight(w: nat, hi: nat, lo: nat, n: nat)
    requires n <= w && lo < Pow2(w)
    ensures Or(Shr(lo, n), Scale(hi, w - n) % Pow2(w)) == Or(Scale(hi, w - n) % Pow2(w), Shr(lo, n))
    ensures Or(Shr(lo, n), Scale(hi, w - n) % Pow2(w)) < Pow2(w)
    ensures Join(w, Shr(hi, n), Or(Shr(lo, n), Scale(hi, w - n) % Pow2(w))) == Shr(Join(w, hi, lo), n)
  {
    var top := HighPart(w, hi, lo, n);
    ShiftIn(w, hi, lo, n, top);
  }

  lemma ShiftIn(w: nat, hi: nat, lo: nat, n: nat, top: nat)
    requires n <= w && top % Pow2(w - n) == 0 && Shr(lo, n) < Pow2(w - n) && top + Shr(lo, n) < Pow2(w)
    requires hi * Pow2(w) == (Shr(hi, n) * Pow2(w) + top) * Pow2(n)
    ensures Or(Shr(lo, n), top) == Or(top, Shr(lo, n)) == top + Shr(lo, n)
    ensures Join(w, Shr(hi, n), top + Shr(lo, n)) == Shr(Join(w, hi, lo), n)
  {
    OrIsSum(top, Shr(lo, n), w - n);
    JoinIn(w, hi, Shr(hi, n), lo, n, top);
  }

  lemma OrIsSum(top: nat, low: nat, k: nat)
    requires top % Pow2(k) == 0 && low < Pow2(k)
    ensures Or(low, top) == Or(top, low) == top + low
  {
    OrCommutes(low, top);
    OrDisjoint(top, low, k);
  }

  lemma JoinIn(w: nat, hi: nat, high: nat, lo: nat, n: nat, top: nat)
    requires hi * Pow2(w) == (high * Pow2(w) + top) * Pow2(n)
    ensures Join(w, high, top + Shr(lo, n)) == Shr(Join(w, hi, lo), n)
  {
    JoinRight(hi * Pow2(w), high * Pow2(w) + top, lo, n);
  }

  lemma JoinRight(x: nat, y: nat, lo: nat, n: nat)
    requires x == y * Pow2(n)
    ensures Shr(x + lo, n) == y + Shr(lo, n)
  {
    var rest := ShrRest(lo, n);
    Assemble(x, y, Shr(lo, n), Pow2(n), rest, lo);
    ShrUnique(x + lo, n, y + Shr(lo, n), rest);
  }

  lemma Assemble(x: int, y: int, q: int, p: int, rest: int, lo: int)
    requires x == y * p && lo == q * p + rest
    ensures x + lo == (y + q) * p + rest
  {
    Distribute(y, q, p);
  }

  /** The bits of hi that enter the low word, as a number. */
  lemma HighPart(w: nat, hi: nat, lo: nat, n: nat) returns (top: nat)
    requires n <= w && lo < Pow2(w)
    ensures top == Scale(hi, w - n) % Pow2(w) && top % Pow2(w - n) == 0
    ensures Shr(lo, n) < Pow2(w - n) && top + Shr(lo, n) < Pow2(w)
    ensures hi * Pow2(w) == (Shr(hi, n) * Pow2(w) + top) * Pow2(n)
  {
    var p, d, a, b := Pow2(n), Pow2(w - n), Shr(hi, n), Pow2(w);
    var r := ShrRest(hi, n);
    assert b == p * d by { Pow2Add(n, w - n); }
    SplitHighWord(hi, a, r, p, d);
    top := r * d;
    assert top == Scale(hi, w - n) % b by {
      ScaleIsProduct(hi, w - n);
      DivModUnique(hi * d, b, a, top);
    }
    MultipleMod(r, d);
    var rest := ShrRest(lo, n);
    ShiftedLowFits(lo, Shr(lo, n), p, d, rest);
  }

  lemma ShiftedLowFits(lo: nat, q: nat, p: nat, d: nat, rest: nat)
    requires p >= 1 && lo == q * p + rest && lo < p * d
    ensures q < d
  {
    if q >= d { MulAtLeast(q - d + 1, p); Distribute(q - d, d, p); Distribute(q - d, 1, p); }
  }
}
