/** The test for a quotient that is not correctly rounded, read off the bits of what the source computes
    (nemu/src/cpu/fpu.c, `internal_float_div`). */
module Ties {
  import opened Powers
  import opened Binary32
  import opened GuardBits
  import opened Normalizer
  import opened Truncation
  import opened FloatDiv

  /** How many low bits of a quotient rounding drops: all but 24 or, on the subnormal scale, those below
      a unit. */
  function Dropped(length: nat, e: int): (k: nat)
    requires length >= 40
    ensures k >= 16
  {
    if length - 24 >= 4 - e then length - 24 else 4 - e
  }

  /** The k dropped bits are a one and zeros, the bit before them is zero, and the result is finite. */
  predicate HalfBits(q: nat, k: nat, e: int)
    requires k >= 1
  {
    q % Pow2(k) == Pow2(k - 1) && q / Pow2(k) % 2 == 0 && k + e - 3 <= 254
  }

  /** A truncated quotient is a tie that rounds down exactly if its bits say so. */
  lemma TiesDownIsHalf(q: nat, e: int, length: nat)
    requires length >= 40 && Pow2(length - 1) <= q < Pow2(length)
    ensures TiesDown(q * Grain(e), Spread(e)) <==> HalfBits(q, Dropped(length, e), e)
  {
    hide Pow2, Units, TiesDown, Grain, Spread;
    var k := Dropped(length, e);
    var E := k + e - 3;
    var s := q / Pow2(k);
    KeptBits(q, length, k, e);
    UnitsOfParts(E, s);
    UnitsOfParts(E, s + 1);
    var lo := (E - 1) * HIDDEN + s;
    assert lo + 1 == (E - 1) * HIDDEN + (s + 1);
    LastPlace(E, k, e);
    Pow2Step(k - 1);
    HalfWay(q, Pow2(k), Pow2(k - 1), Grain(e), s);
    MulAssoc(s, Pow2(E - 1), 8 * Spread(e));
    MulAssoc(s + 1, Pow2(E - 1), 8 * Spread(e));
    TiesDownInBracket(q * Grain(e), Spread(e), lo);
    FiniteAndEven(E, s);
  }

  lemma FiniteAndEven(E: nat, s: nat)
    requires E >= 1 && s < 2 * HIDDEN && (E > 1 ==> s >= HIDDEN)
    ensures var lo := (E - 1) * HIDDEN + s;
      (lo < INFINITY <==> E <= 254) && (lo % 2 == 0 <==> s % 2 == 0)
  {
  }

  /** What is kept fits a significand, normal or subnormal. */
  lemma KeptBits(q: nat, length: nat, k: nat, e: int)
    requires length >= 40 && Pow2(length - 1) <= q < Pow2(length) && k == Dropped(length, e)
    ensures k + e - 3 >= 1
    ensures var s := q / Pow2(k); s < 2 * HIDDEN && (k + e - 3 > 1 ==> s >= HIDDEN)
  {
    hide Pow2;
    MoreBits();
    var s := q / Pow2(k);
    DivisionBounds(q, Pow2(k), s);
    if s >= 2 * HIDDEN {
      ScaleMonotone(2 * HIDDEN, s, Pow2(k));
      Pow2Add(24, k);
      Pow2Monotone(length, 24 + k);
    }
    if k == length - 24 && s < HIDDEN {
      ScaleMonotone(s + 1, HIDDEN, Pow2(k));
      Pow2Add(23, k);
    }
  }

  lemma DivisionBounds(q: nat, p: nat, s: nat)
    requires p > 0 && s == q / p
    ensures s * p <= q < (s + 1) * p
  {
    var r := q % p;
    assert q == p * s + r;
  }

  /** One unit in the last place is 2^k grains. */
  lemma LastPlace(E: nat, k: nat, e: int)
    requires E >= 1 && E == k + e - 3
    ensures Pow2(E - 1) * (8 * Spread(e)) == Pow2(k) * Grain(e)
  {
    assert Pow2(3) == 8 && Pow2(0) == 1;
    hide Pow2;
    if e >= 1 {
      Pow2Add(E - 1, 3);
      Pow2Add(k, e - 1);
    } else {
      Pow2Add(E - 1, 3);
      Pow2Add(E + 2, 1 - e);
      MulAssoc(Pow2(E - 1), 8, Pow2(1 - e));
    }
  }

  /** q between multiples of p, and in the middle exactly if its remainder is half of p. */
  lemma HalfWay(q: nat, p: nat, h: nat, w: nat, s: nat)
    requires p == 2 * h && h > 0 && w > 0 && s == q / p
    ensures s * (p * w) <= q * w < (s + 1) * (p * w)
    ensures 2 * (q * w) == s * (p * w) + (s + 1) * (p * w) <==> q % p == h
  {
    var r := q % p;
    DivisionBounds(q, p, s);
    assert q == s * p + r;
    MulAssoc(s, p, w);
    MulAssoc(s + 1, p, w);
    ScaleMonotone(s * p, q, w);
    ScaleMonotone(q, (s + 1) * p, w);
    Middle(q * w, s * p * w, r, h, w);
  }

  lemma Middle(n: nat, a: nat, r: nat, h: nat, w: nat)
    requires w > 0 && n == a + r * w
    ensures 2 * n == a + (a + 2 * h * w) <==> r == h
  {
    ScaleMonotone(r, h, w);
    ScaleMonotone(h, r, w);
  }

  /** Division is correctly rounded exactly if the truncated quotient is outside the band and its bits
      are not those of such a tie over a dropped remainder. */
  lemma QuotientIsSafeIff(ma: nat, mb: nat, length: nat)
    requires ma > 0 && mb > 0 && length >= 1
    requires Pow2(length - 1) <= QuotientSignificand(ma, mb) < Pow2(length)
    ensures length >= 40
    ensures var e, q := QuotientExponent(ma, mb), QuotientSignificand(ma, mb);
      QuotientIsSafe(ma, mb) <==>
        && !LosesCarry(q * Grain(e), Spread(e))
        && !(Dividend(ma) % Divisor(mb) != 0 && HalfBits(q, Dropped(length, e), e))
  {
    hide Pow2, TiesDown, HalfBits, Dropped, LosesCarry, Grain, Spread, Dividend, Divisor;
    hide QuotientExponent, QuotientSignificand;
    QuotientBounds(ma, mb);
    FortyBits(QuotientSignificand(ma, mb), length);
    TiesDownIsHalf(QuotientSignificand(ma, mb), QuotientExponent(ma, mb), length);
  }

  lemma FortyBits(q: nat, length: nat)
    requires 0x80_0000_0000 <= q < Pow2(length)
    ensures length >= 40
  {
    hide Pow2;
    if length < 40 {
      MoreBits();
      Pow2Monotone(length, 39);
    }
  }
}
