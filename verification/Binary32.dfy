/**
 Binary32 as IEEE 754-2008 defines it: the encoding (section 3.4) and round-to-nearest-even
 (section 4.3.1), stated without any shifting or guard bits so that it can serve as the
 reference the integer algorithms of the soft-float unit are proved against.

 All magnitudes are exact integers: one unit is 2^-149, the smallest subnormal. An arbitrary
 non-negative real result is a fraction n / d of units.
 */
module Binary32 {
  import opened Powers
  import opened Words

  type Word = U32

  const HIDDEN: nat := 0x80_0000          // 2^23, the hidden bit
  const INFINITY: nat := 0x7f80_0000      // magnitude bits of infinity
  const P_ZERO: Word := 0
  const N_ZERO: Word := 0x8000_0000
  const P_INF: Word := 0x7f80_0000
  const N_INF: Word := 0xff80_0000
  const P_NAN: Word := 0x7fc0_0000
  const N_NAN: Word := 0xffc0_0000

  function SignOf(b: Word): nat { b / 0x8000_0000 }
  function ExponentOf(b: Word): nat { b / HIDDEN % 256 }
  function FractionOf(b: Word): nat { b % HIDDEN }
  function MagnitudeOf(b: Word): nat { b % 0x8000_0000 }

  function Pack(sign: nat, exponent: nat, fraction: nat): Word
    requires sign < 2 && exponent < 256 && fraction < HIDDEN
  {
    sign * 0x8000_0000 + exponent * HIDDEN + fraction
  }

  predicate IsFinite(b: Word) { ExponentOf(b) != 255 }
  predicate IsInfinite(b: Word) { MagnitudeOf(b) == INFINITY }
  predicate IsNaN(b: Word) { MagnitudeOf(b) > INFINITY }
  predicate IsZero(b: Word) { MagnitudeOf(b) == 0 }

  lemma PackFields(sign: nat, exponent: nat, fraction: nat)
    requires sign < 2 && exponent < 256 && fraction < HIDDEN
    ensures var b := Pack(sign, exponent, fraction);
      && SignOf(b) == sign && ExponentOf(b) == exponent && FractionOf(b) == fraction
      && MagnitudeOf(b) == exponent * HIDDEN + fraction
  {
  }

  lemma FieldsOf(b: Word)
    ensures SignOf(b) < 2
    ensures MagnitudeOf(b) == ExponentOf(b) * HIDDEN + FractionOf(b)
    ensures b == SignOf(b) * 0x8000_0000 + MagnitudeOf(b)
    ensures MagnitudeOf(b) / HIDDEN == ExponentOf(b) && MagnitudeOf(b) % HIDDEN == FractionOf(b)
    ensures IsFinite(b) <==> MagnitudeOf(b) < INFINITY
    ensures !IsFinite(b) ==> IsInfinite(b) || IsNaN(b)
  {
  }

  /** Every word is finite, infinite or NaN, and only one of these; NaN is the top exponent with a fraction. */
  lemma OneKind(b: Word)
    ensures IsNaN(b) <==> ExponentOf(b) == 255 && FractionOf(b) > 0
    ensures IsInfinite(b) <==> ExponentOf(b) == 255 && FractionOf(b) == 0
    ensures IsFinite(b) <==> !IsNaN(b) && !IsInfinite(b)
    ensures IsZero(b) <==> ExponentOf(b) == 0 && FractionOf(b) == 0
    ensures SignOf(b) == (if b < 0x8000_0000 then 0 else 1) && MagnitudeOf(b) < 0x8000_0000
  {
    FieldsOf(b);
  }

  /** The words the source has names for; its NaNs are quiet ones (section 6.2.1). */
  lemma KnownWords()
    ensures Pack(0, 0, 0) == P_ZERO && Pack(1, 0, 0) == N_ZERO
    ensures Pack(0, 255, 0) == P_INF && Pack(1, 255, 0) == N_INF
    ensures Pack(0, 255, HIDDEN / 2) == P_NAN && Pack(1, 255, HIDDEN / 2) == N_NAN
  {
  }

  /** The significand with its hidden bit, and the exponent a subnormal really has. */
  function Significand(m: nat): nat {
    if m / HIDDEN == 0 then m % HIDDEN else HIDDEN + m % HIDDEN
  }

  function EffectiveExponent(m: nat): (e: nat)
    ensures e >= 1
  {
    if m / HIDDEN == 0 then 1 else m / HIDDEN
  }

  /** The value of a magnitude in units of 2^-149. At INFINITY this continues the scale. */
  function Units(m: nat): nat {
    Significand(m) * Pow2(EffectiveExponent(m) - 1)
  }

  function Signed(negative: bool, x: nat): int { if negative then -(x as int) else x }

  function SignedUnits(b: Word): int { Signed(SignOf(b) == 1, Units(MagnitudeOf(b))) }

  /** 2^127 * (2 - 2^-24) in units: from here on the result is infinite (section 4.3.1). */
  function OverflowBound(): nat { 0x1ff_ffff * Pow2(252) }

  function Distance(n: nat, d: nat, m: nat): nat {
    var t := Units(m) * d;
    if n < t then t - n else n - t
  }

  /** m is the round-to-nearest-even magnitude of the value n / d, for d > 0. */
  ghost predicate RoundsTo(n: nat, d: nat, m: nat) {
    if n >= OverflowBound() * d then m == INFINITY
    else
      && m < INFINITY
      && (forall s :: 0 <= s < INFINITY ==> Distance(n, d, m) <= Distance(n, d, s))
      && (forall s :: 0 <= s < INFINITY && s != m && Distance(n, d, m) == Distance(n, d, s) ==> m % 2 == 0)
  }

  // ---------------------------------------------------------------- order and scale

  /** The bits of a magnitude written as exponent and significand; a carry out of the
      significand is already the next exponent. */
  lemma UnitsOfParts(e: nat, q: nat)
    requires 1 <= e
    requires HIDDEN <= q <= 2 * HIDDEN || (e == 1 && q <= 2 * HIDDEN)
    ensures Units((e - 1) * HIDDEN + q) == q * Pow2(e - 1)
  {
    var m := (e - 1) * HIDDEN + q;
    if q == 2 * HIDDEN {
      assert m == (e + 1) * HIDDEN;
      assert m / HIDDEN == e + 1 && m % HIDDEN == 0;
      assert Pow2(e) == 2 * Pow2(e - 1);
      calc {
        Units(m);
        HIDDEN * Pow2(e);
        HIDDEN * (2 * Pow2(e - 1));
        q * Pow2(e - 1);
      }
    } else if q >= HIDDEN {
      assert m == e * HIDDEN + (q - HIDDEN);
      assert m / HIDDEN == e && m % HIDDEN == q - HIDDEN;
    } else {
      assert m == q && m / HIDDEN == 0;
    }
  }

  lemma UnitsStep(m: nat)
    ensures Units(m) < Units(m + 1)
  {
    var e := EffectiveExponent(m);
    var q := Significand(m);
    assert m == (e - 1) * HIDDEN + q;
    UnitsOfParts(e, q);
    UnitsOfParts(e, q + 1);
    assert m + 1 == (e - 1) * HIDDEN + (q + 1);
    ScaleMonotone(q, q + 1, Pow2(e - 1));
  }

  lemma {:induction false} UnitsMonotone(s: nat, t: nat)
    requires s <= t
    ensures Units(s) <= Units(t)
    ensures s < t ==> Units(s) < Units(t)
    decreases t - s
  {
    if s < t {
      UnitsMonotone(s, t - 1);
      UnitsStep(t - 1);
    }
  }

  lemma InfinityUnits()
    ensures Units(INFINITY) + Units(INFINITY - 1) == 2 * OverflowBound()
    ensures Units(INFINITY) > OverflowBound() > Units(INFINITY - 1)
  {
    hide Pow2, Units;
    Pow2Step(252);
    UnitsOfParts(254, 2 * HIDDEN);
    UnitsOfParts(254, 2 * HIDDEN - 1);
    assert INFINITY == 253 * HIDDEN + 2 * HIDDEN;
    assert INFINITY - 1 == 253 * HIDDEN + (2 * HIDDEN - 1);
  }

  /** No magnitude is nearer than the neighbour chosen by comparing with the midpoint. */
  lemma NearerNeighbour(n: nat, d: nat, lo: nat, m: nat, s: nat)
    requires d > 0
    requires Units(lo) * d <= n < Units(lo + 1) * d
    requires var mid := Units(lo) * d + Units(lo + 1) * d;
      m == if 2 * n < mid || (2 * n == mid && lo % 2 == 0) then lo else lo + 1
    ensures Distance(n, d, m) <= Distance(n, d, s)
    ensures s != m && Distance(n, d, m) == Distance(n, d, s) ==> m % 2 == 0
  {
    var p, below, above := Units(s) * d, Units(lo) * d, Units(lo + 1) * d;
    if s <= lo {
      UnitsMonotone(s, lo);
      ScaleMonotone(Units(s), Units(lo), d);
      assert p <= below && (s < lo ==> p < below);
    } else {
      UnitsMonotone(lo + 1, s);
      ScaleMonotone(Units(lo + 1), Units(s), d);
      assert p >= above && (s > lo + 1 ==> p > above);
    }
  }

  /** Rounding between two neighbouring magnitudes: the only way a value ever rounds. */
  lemma RoundedBetween(n: nat, d: nat, lo: nat, m: nat)
    requires d > 0 && lo < INFINITY
    requires Units(lo) * d <= n < Units(lo + 1) * d
    requires var mid := Units(lo) * d + Units(lo + 1) * d;
      m == if 2 * n < mid || (2 * n == mid && lo % 2 == 0) then lo else lo + 1
    ensures RoundsTo(n, d, m)
  {
    InfinityUnits();
    if lo + 1 == INFINITY {
      MidpointScales(Units(lo), Units(lo + 1), OverflowBound(), d);
    } else {
      UnitsMonotone(lo + 1, INFINITY - 1);
      ScaleMonotone(Units(lo + 1), OverflowBound(), d);
    }
    forall s | 0 <= s < INFINITY
      ensures Distance(n, d, m) <= Distance(n, d, s)
      ensures s != m && Distance(n, d, m) == Distance(n, d, s) ==> m % 2 == 0
    {
      NearerNeighbour(n, d, lo, m, s);
    }
  }

  lemma MidpointScales(a: nat, b: nat, mid: nat, d: nat)
    requires a + b == 2 * mid
    ensures a * d + b * d == 2 * (mid * d)
  {
    assert (a + b) * d == a * d + b * d;
    assert 2 * mid * d == 2 * (mid * d);
  }

  lemma BeyondLargest(n: nat, d: nat)
    requires d > 0 && n >= OverflowBound() * d
    ensures RoundsTo(n, d, INFINITY)
  {
  }

  /** A value has one rounding only. */
  lemma RoundingUnique(n: nat, d: nat, a: nat, b: nat)
    requires d > 0 && RoundsTo(n, d, a) && RoundsTo(n, d, b)
    ensures a == b
  {
    if a != b {
      var x, y := if a < b then a else b, if a < b then b else a;
      assert Distance(n, d, x) == Distance(n, d, y);
      UnitsMonotone(x, y);
      ScaleMonotone(Units(x), Units(y), d);
      // both even, so there is a magnitude strictly between that is nearer
      var z := x + 1;
      assert x < z < y;
      assert Distance(n, d, x) <= Distance(n, d, z);
      UnitsMonotone(x, z);
      UnitsMonotone(z, y);
      ScaleMonotone(Units(x), Units(z), d);
      ScaleMonotone(Units(z), Units(y), d);
    }
  }

  lemma DistanceScales(n: nat, d: nat, k: nat, s: nat)
    requires k > 0
    ensures Distance(n * k, d * k, s) == Distance(n, d, s) * k
  {
    var t := Units(s) * d;
    assert Units(s) * (d * k) == t * k;
    ScaleMonotone(n, t, k);
    ScaleMonotone(t, n, k);
    assert n * k - t * k == (n - t) * k;
  }

  lemma DistanceOrderScales(n: nat, d: nat, k: nat, a: nat, b: nat)
    requires k > 0
    ensures Distance(n, d, a) <= Distance(n, d, b) <==> Distance(n * k, d * k, a) <= Distance(n * k, d * k, b)
    ensures Distance(n, d, a) == Distance(n, d, b) <==> Distance(n * k, d * k, a) == Distance(n * k, d * k, b)
  {
    DistanceScales(n, d, k, a);
    DistanceScales(n, d, k, b);
    ScaleMonotone(Distance(n, d, a), Distance(n, d, b), k);
    ScaleMonotone(Distance(n, d, b), Distance(n, d, a), k);
  }

  /** Rounding depends on the value only, not on the fraction that writes it. */
  lemma RoundingScales(n: nat, d: nat, k: nat, m: nat)
    requires d > 0 && k > 0
    ensures d * k > 0
    ensures RoundsTo(n, d, m) <==> RoundsTo(n * k, d * k, m)
  {
    hide OverflowBound, Distance;
    ScaleMonotone(0, d, k);
    ScaleMonotone(OverflowBound() * d, n, k);
    ScaleMonotone(n, OverflowBound() * d, k);
    assert OverflowBound() * d * k == OverflowBound() * (d * k);
    forall s
      ensures Distance(n, d, m) <= Distance(n, d, s) <==> Distance(n * k, d * k, m) <= Distance(n * k, d * k, s)
      ensures Distance(n, d, m) == Distance(n, d, s) <==> Distance(n * k, d * k, m) == Distance(n * k, d * k, s)
    {
      DistanceOrderScales(n, d, k, m, s);
    }
  }

  lemma RoundingOfEqualValues(n: nat, d: nat, n': nat, d': nat, m: nat)
    requires d > 0 && d' > 0 && n * d' == n' * d
    ensures RoundsTo(n, d, m) <==> RoundsTo(n', d', m)
  {
    RoundingScales(n, d, d', m);
    RoundingScales(n', d', d, m);
    assert d * d' == d' * d;
  }

  /** A representable value rounds to itself. */
  lemma RepresentableIsExact(n: nat, d: nat, m: nat, r: nat)
    requires d > 0 && m < INFINITY && n == Units(m) * d
    ensures RoundsTo(n, d, r) <==> r == m
  {
    UnitsStep(m);
    ScaleMonotone(Units(m), Units(m + 1), d);
    RoundedBetween(n, d, m, m);
    if RoundsTo(n, d, r) { RoundingUnique(n, d, r, m); }
  }
}
