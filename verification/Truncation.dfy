/**
 Rounding a quotient whose remainder was dropped. A quotient truncated to at least 40 bits rounds as
 the exact quotient does, unless it sits exactly on a tie that rounds down; then the result is off by
 less than 2^-16 of a unit in the last place.
 */
module Truncation {
  import opened Powers
  import opened Binary32

  /** Exact quotient A * w / (B * v) and truncated quotient q * w / v, in eighths of a unit. Either w
      or v is 1; the grain w of the truncated quotient is what the dropped remainder can be worth. */
  function Grain(e: int): (w: nat)
    ensures w > 0
  {
    if e >= 1 then Pow2(e - 1) else 1
  }

  function Spread(e: int): (v: nat)
    ensures v > 0
  {
    if e >= 1 then 1 else Pow2(1 - e)
  }

  /** n / (8 * d) is exactly half way between two neighbours of which the lower is even. */
  ghost predicate TiesDown(n: nat, d: nat) {
    exists lo: nat :: lo < INFINITY && lo % 2 == 0 && 2 * n == (Units(lo) + Units(lo + 1)) * (8 * d)
  }

  /** The neighbours around a value that has a finite rounding. */
  lemma Bracket(n: nat, d: nat, m: nat) returns (lo: nat)
    requires d > 0 && RoundsTo(n, d, m) && m < INFINITY
    ensures lo < INFINITY && Units(lo) * d <= n < Units(lo + 1) * d
  {
    if Units(m) * d <= n {
      NotBeyondNext(n, d, m);
      lo := m;
    } else {
      UnitsOfParts(1, 0);
      NotBelowPrevious(n, d, m);
      lo := m - 1;
    }
  }

  lemma NotBeyondNext(n: nat, d: nat, m: nat)
    requires d > 0 && RoundsTo(n, d, m) && m < INFINITY && Units(m) * d <= n
    ensures n < Units(m + 1) * d
  {
    InfinityUnits();
    UnitsStep(m);
    ScaleMonotone(Units(m), Units(m + 1), d);
    ScaleMonotone(OverflowBound(), Units(INFINITY), d);
    if m + 1 < INFINITY {
      assert Distance(n, d, m) <= Distance(n, d, m + 1);
    }
  }

  lemma NotBelowPrevious(n: nat, d: nat, m: nat)
    requires d > 0 && RoundsTo(n, d, m) && 0 < m < INFINITY && n < Units(m) * d
    ensures Units(m - 1) * d <= n
  {
    UnitsStep(m - 1);
    ScaleMonotone(Units(m - 1), Units(m), d);
    assert Distance(n, d, m) <= Distance(n, d, m - 1);
  }

  /** Between two multiples of its grain the truncated quotient cannot hide the exact one. */
  lemma SameSide(A: nat, B: nat, q: nat, w: nat, t: nat)
    requires B > 0 && w > 0 && q * B <= A < (q + 1) * B
    ensures q * w < t * w ==> A * w < t * w * B
    ensures q * w >= t * w ==> A * w >= t * w * B
    ensures q * w > t * w ==> A * w > t * w * B
    ensures A > q * B && q * w == t * w ==> A * w > t * w * B
  {
    MulAssoc(t, w, B);
    ScaleMonotone(q, t, w);
    ScaleMonotone(t, q, w);
    if q < t {
      ScaleMonotone(q + 1, t, B);
      ScaleMonotone(A, t * B, w);
    }
    if t <= q {
      ScaleMonotone(t, q, B);
      ScaleMonotone(t * B, A, w);
    }
    if t < q {
      ScaleMonotone(t, q, B);
      ScaleMonotone(t * B, A, w);
    }
    assert t * w * B == t * B * w;
  }

  /** A quotient of 40 bits leaves at least 13 binary places between its grain and the significand. */
  lemma GrainExponent(E: nat, e: nat, s: nat, q: nat)
    requires E >= 1 && e >= 1 && s <= 2 * HIDDEN && q >= 0x80_0000_0000
    requires q * Pow2(e - 1) < 8 * (s * Pow2(E - 1))
    ensures E >= e + 13
  {
    hide Pow2;
    var u, w := Pow2(E - 1), Pow2(e - 1);
    ScaleMonotone(s, 2 * HIDDEN, u);
    ScaleMonotone(0x80_0000_0000, q, w);
    assert u > 0x1000 * w;
    if E <= e + 12 {
      Pow2Monotone(E - 1, e + 11);
      Pow2Add(12, e - 1);
      TwelveBits();
    }
  }

  lemma TwelveBits()
    ensures Pow2(12) == 0x1000 && Pow2(13) == 0x2000
  {
    assert Pow2(6) == 64;
    Pow2Add(6, 6);
  }

  lemma MoreBits()
    ensures Pow2(14) == 0x4000 && Pow2(21) == 0x20_0000
    ensures Pow2(23) == HIDDEN && Pow2(24) == 2 * HIDDEN
    ensures Pow2(39) == 0x80_0000_0000 && Pow2(40) == 0x100_0000_0000
  {
    TwelveBits();
    FirstPowers();
    hide Pow2;
    Pow2Add(2, 12);
    Pow2Add(9, 12);
    Pow2Add(12, 12);
    Pow2Add(1, 23);
    Pow2Add(24, 12);
    Pow2Add(4, 36);
    Pow2Add(1, 39);
  }

  lemma FirstPowers()
    ensures Pow2(1) == 2 && Pow2(2) == 4 && Pow2(4) == 16 && Pow2(9) == 512
  {
    assert Pow2(4) == 16;
  }

  /** Above 2^39 grains, a bracket's bounds and midpoint are multiples of the grain, and an ulp is at
      least 2^16 grains. */
  lemma GrainDivides(lo: nat, q: nat, e: nat) returns (t: nat)
    requires e >= 1 && q >= 0x80_0000_0000
    requires q * Pow2(e - 1) < 8 * Units(lo + 1)
    ensures Units(lo) == Significand(lo) * (t * Pow2(e - 1))
    ensures Units(lo + 1) == (Significand(lo) + 1) * (t * Pow2(e - 1))
    ensures t >= 0x2000
  {
    var E, s := EffectiveExponent(lo), Significand(lo);
    assert lo == (E - 1) * HIDDEN + s && lo + 1 == (E - 1) * HIDDEN + (s + 1);
    hide Pow2, Units;
    UnitsOfParts(E, s);
    UnitsOfParts(E, s + 1);
    GrainExponent(E, e, s + 1, q);
    Pow2Add(E - e, e - 1);
    Pow2Monotone(13, E - e);
    TwelveBits();
    t := Pow2(E - e);
  }

  /** The truncated quotient q * w / v between two neighbours lo and lo + 1, and the exact quotient
      A * w / (B * v) lie on the same side of everything rounding looks at, except of a tie. */
  lemma SameBracket(A: nat, B: nat, q: nat, e: int, lo: nat)
    requires B > 0 && q * B <= A < (q + 1) * B && q >= 0x80_0000_0000
    requires var w, v := Grain(e), Spread(e); Units(lo) * (8 * v) <= q * w < Units(lo + 1) * (8 * v)
    ensures var n, n', d, d' := A * Grain(e), q * Grain(e), Spread(e) * B, Spread(e);
      var mid, mid' := Units(lo) * (8 * d) + Units(lo + 1) * (8 * d), Units(lo) * (8 * d') + Units(lo + 1) * (8 * d');
      && Units(lo) * (8 * d) <= n < Units(lo + 1) * (8 * d)
      && (2 * n' < mid' ==> 2 * n < mid)
      && (2 * n' > mid' ==> 2 * n > mid)
      && (2 * n' == mid' ==> 2 * n >= mid && (A > q * B ==> 2 * n > mid))
  {
    hide Units, Grain, Spread;
    var w, v := Grain(e), Spread(e);
    var ta, tb, tm := GridMultiples(q, e, lo);
    GridBounds(Units(lo), Units(lo + 1), v, w, ta, tb, tm, B, A, q);
  }

  lemma GridMultiples(q: nat, e: int, lo: nat) returns (ta: nat, tb: nat, tm: nat)
    requires q >= 0x80_0000_0000
    requires q * Grain(e) < Units(lo + 1) * (8 * Spread(e))
    ensures var w, v, a, b := Grain(e), Spread(e), Units(lo), Units(lo + 1);
      ta * w == a * (8 * v) && tb * w == b * (8 * v) && tm * w == 4 * (a * v) + 4 * (b * v)
  {
    hide Units, Pow2, Significand;
    if e >= 1 {
      var t := GrainDivides(lo, q, e);
      var s := Significand(lo);
      ta, tb, tm := 8 * (s * t), 8 * ((s + 1) * t), 4 * (s * t) + 4 * ((s + 1) * t);
      GridOfNormal(Units(lo), Units(lo + 1), s, t, Grain(e));
    } else {
      ta, tb, tm := Units(lo) * (8 * Spread(e)), Units(lo + 1) * (8 * Spread(e)),
        4 * (Units(lo) * Spread(e)) + 4 * (Units(lo + 1) * Spread(e));
    }
  }

  lemma GridOfNormal(a: nat, b: nat, s: nat, t: nat, w: nat)
    requires a == s * (t * w) && b == (s + 1) * (t * w)
    ensures 8 * (s * t) * w == a * (8 * 1) && 8 * ((s + 1) * t) * w == b * (8 * 1)
    ensures (4 * (s * t) + 4 * ((s + 1) * t)) * w == 4 * (a * 1) + 4 * (b * 1)
  {
    MulAssoc(s, t, w);
    MulAssoc(s + 1, t, w);
    FourAndEight(s * t, (s + 1) * t, w);
  }

  lemma FourAndEight(x: nat, y: nat, w: nat)
    ensures 8 * x * w == 8 * (x * w) && 8 * y * w == 8 * (y * w)
    ensures (4 * x + 4 * y) * w == 4 * (x * w) + 4 * (y * w)
  {
  }

  lemma GridBounds(a: nat, b: nat, v: nat, w: nat, ta: nat, tb: nat, tm: nat, B: nat, A: nat, q: nat)
    requires B > 0 && w > 0 && q * B <= A < (q + 1) * B
    requires ta * w == a * (8 * v) && tb * w == b * (8 * v) && tm * w == 4 * (a * v) + 4 * (b * v)
    requires a * (8 * v) <= q * w < b * (8 * v)
    ensures var n, n', d, d' := A * w, q * w, v * B, v;
      var mid, mid' := a * (8 * d) + b * (8 * d), a * (8 * d') + b * (8 * d');
      && a * (8 * d) <= n < b * (8 * d)
      && (2 * n' < mid' ==> 2 * n < mid)
      && (2 * n' > mid' ==> 2 * n > mid)
      && (2 * n' == mid' ==> 2 * n >= mid && (A > q * B ==> 2 * n > mid))
  {
    SameSide(A, B, q, w, ta);
    SameSide(A, B, q, w, tb);
    SameSide(A, B, q, w, tm);
    EightFold(a, v, B);
    EightFold(b, v, B);
    MidScales(a * v, b * v, B);
    GridSides(A * w, q * w, a * (8 * (v * B)), b * (8 * (v * B)), tm * w * B, a * (8 * v), b * (8 * v), tm * w,
              A > q * B);
  }

  /** On which side of its bracket's ends and middle a value is, read off its truncation. */
  lemma GridSides(n: nat, n': nat, lo: nat, hi: nat, half: nat, lo': nat, hi': nat, half': nat, more: bool)
    requires lo' <= n' < hi' && lo' + hi' == 2 * half' && lo + hi == 2 * half
    requires n' >= lo' ==> n >= lo
    requires n' < hi' ==> n < hi
    requires (n' < half' ==> n < half) && (n' >= half' ==> n >= half) && (n' > half' ==> n > half)
    requires more && n' == half' ==> n > half
    ensures lo <= n < hi
    ensures 2 * n' < lo' + hi' ==> 2 * n < lo + hi
    ensures 2 * n' > lo' + hi' ==> 2 * n > lo + hi
    ensures 2 * n' == lo' + hi' ==> 2 * n >= lo + hi && (more ==> 2 * n > lo + hi)
  {
  }

  lemma MidScales(x: nat, y: nat, B: nat)
    ensures (4 * x + 4 * y) * B == 4 * (x * B) + 4 * (y * B)
    ensures 8 * (x * B) == 8 * x * B && 8 * (y * B) == 8 * y * B
  {
  }

  lemma EightFold(a: nat, v: nat, B: nat)
    ensures a * (8 * (v * B)) == 8 * (a * v * B) == a * (8 * v) * B
    ensures a * (8 * v) == 8 * (a * v)
  {
    MulAssoc(a, v, B);
  }

  /** Rounding the truncated quotient is rounding the exact one, unless a tie rounds down over a
      dropped remainder. */
  lemma TruncationRounds(A: nat, B: nat, q: nat, e: int, m: nat)
    requires B > 0 && q * B <= A < (q + 1) * B && q >= 0x80_0000_0000
    requires RoundsTo(q * Grain(e), 8 * Spread(e), m)
    ensures RoundsTo(A * Grain(e), 8 * (Spread(e) * B), m) <==>
      !(A > q * B && TiesDown(q * Grain(e), Spread(e)))
  {
    hide Units, Grain, Spread, RoundsTo, TiesDown;
    var w, v := Grain(e), Spread(e);
    if A == q * B {
      ExactScaled(A, B, q, w, v);
      RoundingOfEqualValues(A * w, 8 * (v * B), q * w, 8 * v, m);
    } else if m < INFINITY {
      var lo := Bracket(q * w, 8 * v, m);
      SameBracket(A, B, q, e, lo);
      RoundBoth(A * w, q * w, v * B, v, lo, m);
    } else {
      InfiniteIsOverflow(q * w, 8 * v, m);
      OverflowBoth(A, B, q, w, v);
    }
  }

  lemma InfiniteIsOverflow(n: nat, d: nat, m: nat)
    requires d > 0 && RoundsTo(n, d, m) && m >= INFINITY
    ensures m == INFINITY && n >= OverflowBound() * d
  {
    hide Distance, OverflowBound;
  }

  lemma ExactScaled(A: nat, B: nat, q: nat, w: nat, v: nat)
    requires A == q * B
    ensures A * w * (8 * v) == q * w * (8 * (v * B))
  {
    var x := q * w;
    assert A * w == x * B by { MulAssoc(q, B, w); MulAssoc(q, w, B); }
    EightFold(x, v, B);
    assert x * B * (8 * v) == 8 * (x * v * B) by { MulAssoc(x, v, B); MulAssoc(x, B, v); }
  }

  lemma RoundBoth(n: nat, n': nat, d: nat, d': nat, lo: nat, m: nat)
    requires d > 0 && d' > 0 && lo < INFINITY && RoundsTo(n', 8 * d', m)
    requires Units(lo) * (8 * d) <= n < Units(lo + 1) * (8 * d)
    requires Units(lo) * (8 * d') <= n' < Units(lo + 1) * (8 * d')
    requires
      var mid, mid' := Units(lo) * (8 * d) + Units(lo + 1) * (8 * d), Units(lo) * (8 * d') + Units(lo + 1) * (8 * d');
      (2 * n' < mid' ==> 2 * n < mid) && (2 * n' >= mid' ==> 2 * n > mid)
    ensures RoundsTo(n, 8 * d, m) <==> !TiesDown(n', d')
  {
    hide Units, RoundsTo, TiesDown;
    var mid' := Units(lo) * (8 * d') + Units(lo + 1) * (8 * d');
    var c' := if 2 * n' < mid' || (2 * n' == mid' && lo % 2 == 0) then lo else lo + 1;
    var c := if 2 * n' < mid' then lo else lo + 1;
    RoundedBetween(n', 8 * d', lo, c');
    RoundingUnique(n', 8 * d', m, c');
    RoundedBetween(n, 8 * d, lo, c);
    if RoundsTo(n, 8 * d, m) { RoundingUnique(n, 8 * d, m, c); }
    TiesDownInBracket(n', d', lo);
  }

  lemma TiesDownInBracket(n: nat, d: nat, lo: nat)
    requires d > 0 && Units(lo) * (8 * d) <= n < Units(lo + 1) * (8 * d)
    ensures TiesDown(n, d) <==>
      lo < INFINITY && lo % 2 == 0 && 2 * n == Units(lo) * (8 * d) + Units(lo + 1) * (8 * d)
  {
    var g := 8 * d;
    forall l: nat
      ensures (Units(l) + Units(l + 1)) * g == Units(l) * g + Units(l + 1) * g
      ensures 2 * n == (Units(l) + Units(l + 1)) * g ==> l == lo
    {
      UnitsStep(l);
      ScaleMonotone(Units(l), Units(l + 1), g);
      assert (Units(l) + Units(l + 1)) * g == Units(l) * g + Units(l + 1) * g;
      if l < lo {
        UnitsMonotone(l + 1, lo);
        ScaleMonotone(Units(l + 1), Units(lo), g);
      } else if lo < l {
        UnitsMonotone(lo + 1, l);
        ScaleMonotone(Units(lo + 1), Units(l), g);
      }
    }
  }

  lemma OverflowBoth(A: nat, B: nat, q: nat, w: nat, v: nat)
    requires B > 0 && v > 0 && w > 0 && q * B <= A
    requires q * w >= OverflowBound() * (8 * v)
    ensures v * B > 0 && RoundsTo(A * w, 8 * (v * B), INFINITY)
    ensures !TiesDown(q * w, v)
  {
    hide Units, OverflowBound, RoundsTo;
    OverflowExact(A, B, q, w, v, OverflowBound());
    BeyondLargest(A * w, 8 * (v * B));
    forall l: nat | l < INFINITY && l % 2 == 0
      ensures 2 * (q * w) != (Units(l) + Units(l + 1)) * (8 * v)
    {
      EvenTieIsFinite(l, 8 * v);
    }
  }

  lemma EvenTieIsFinite(l: nat, g: nat)
    requires l < INFINITY && l % 2 == 0 && g > 0
    ensures (Units(l) + Units(l + 1)) * g < 2 * (OverflowBound() * g)
  {
    hide Units, OverflowBound;
    InfinityUnits();
    UnitsMonotone(l, INFINITY - 1);
    UnitsMonotone(l + 1, INFINITY - 1);
    ScaleMonotone(Units(l) + Units(l + 1), 2 * OverflowBound(), g);
    MulAssoc(2, OverflowBound(), g);
  }

  lemma OverflowExact(A: nat, B: nat, q: nat, w: nat, v: nat, o: nat)
    requires B > 0 && v > 0 && w > 0 && q * B <= A
    requires q * w >= o * (8 * v)
    ensures v * B > 0 && A * w >= o * (8 * (v * B))
  {
    EightFold(o, v, B);
    ScaleMonotone(o * (8 * v), q * w, B);
    ScaleMonotone(q * B, A, w);
    assert q * w * B == q * B * w by { MulAssoc(q, w, B); MulAssoc(q, B, w); }
    ScaleMonotone(0, v, B);
  }

  /** Where it rounds otherwise, the truncated quotient rounds to the neighbour below. */
  lemma TieFallsShort(A: nat, B: nat, q: nat, e: int, m: nat)
    requires B > 0 && q * B < A < (q + 1) * B && q >= 0x80_0000_0000
    requires RoundsTo(q * Grain(e), 8 * Spread(e), m) && TiesDown(q * Grain(e), Spread(e))
    ensures m < INFINITY && RoundsTo(A * Grain(e), 8 * (Spread(e) * B), m + 1)
  {
    hide Units, Grain, Spread, RoundsTo, TiesDown, OverflowBound;
    var w, v := Grain(e), Spread(e);
    if m >= INFINITY {
      InfiniteIsOverflow(q * w, 8 * v, m);
      OverflowBoth(A, B, q, w, v);
    } else {
      TieIsLower(q * w, v, m);
      TieAbove(q * w, 8 * v, m);
      SameBracket(A, B, q, e, m);
      ScaleMonotone(0, v, B);
      RoundedBetween(A * w, 8 * (v * B), m, m + 1);
    }
  }

  lemma TieAbove(n: nat, d: nat, m: nat)
    requires d > 0 && 2 * n == (Units(m) + Units(m + 1)) * d
    ensures Units(m) * d <= n && 2 * n == Units(m) * d + Units(m + 1) * d
  {
    hide Units;
    UnitsStep(m);
    ScaleMonotone(Units(m), Units(m + 1), d);
    assert (Units(m) + Units(m + 1)) * d == Units(m) * d + Units(m + 1) * d;
  }

  // ---------------------------------------------------------------- the error of the truncated quotient

  /** The weight of the last place of a magnitude, in units. */
  function UlpOf(m: nat): (u: nat)
    ensures u > 0
  {
    Pow2(EffectiveExponent(m) - 1)
  }

  lemma UlpIsStep(lo: nat)
    ensures Units(lo + 1) == Units(lo) + UlpOf(lo)
    ensures UlpOf(lo) <= UlpOf(lo + 1)
  {
    hide Pow2, Units;
    var E, s := EffectiveExponent(lo), Significand(lo);
    assert lo == (E - 1) * HIDDEN + s && lo + 1 == (E - 1) * HIDDEN + (s + 1);
    UnitsOfParts(E, s);
    UnitsOfParts(E, s + 1);
    Pow2Monotone(E - 1, EffectiveExponent(lo + 1) - 1);
  }

  /** Rounding to nearest is within half a unit in the last place. */
  lemma WithinHalfUlp(n: nat, d: nat, m: nat)
    requires d > 0 && RoundsTo(n, d, m) && m < INFINITY
    ensures 2 * Distance(n, d, m) <= UlpOf(m) * d
  {
    hide Units, RoundsTo, UlpOf, Distance;
    var lo := Bracket(n, d, m);
    UlpIsStep(lo);
    var mid := Units(lo) * d + Units(lo + 1) * d;
    var c := if 2 * n < mid || (2 * n == mid && lo % 2 == 0) then lo else lo + 1;
    RoundedBetween(n, d, lo, c);
    RoundingUnique(n, d, m, c);
    StepScaled(Units(lo), UlpOf(lo), d);
    ScaleMonotone(UlpOf(lo), UlpOf(lo + 1), d);
    HalfStep(n, d, lo, c);
  }

  lemma StepScaled(a: nat, u: nat, d: nat)
    ensures (a + u) * d == a * d + u * d
  {
  }

  lemma HalfStep(n: nat, d: nat, lo: nat, c: nat)
    requires Units(lo) * d <= n < Units(lo + 1) * d
    requires Units(lo + 1) * d == Units(lo) * d + UlpOf(lo) * d && UlpOf(lo) * d <= UlpOf(lo + 1) * d
    requires c == (if 2 * n < Units(lo) * d + Units(lo + 1) * d then lo else lo + 1)
      || (c == lo && 2 * n == Units(lo) * d + Units(lo + 1) * d)
    ensures 2 * Distance(n, d, c) <= UlpOf(c) * d
  {
  }

  lemma SpreadExponent(E: nat, f: nat, s: nat, q: nat)
    requires E >= 1 && s <= 2 * HIDDEN && q >= 0x80_0000_0000
    requires q < s * Pow2(E - 1) * (8 * Pow2(f))
    ensures 0x1_0000 <= 8 * (Pow2(E - 1) * Pow2(f))
  {
    hide Pow2;
    var u, v := Pow2(E - 1), Pow2(f);
    var p := u * v;
    assert s * u * (8 * v) == s * (8 * p) by { MulSwap(s, u, 8, v); MulAssoc(s, 8, p); }
    ScaleMonotone(s, 2 * HIDDEN, 8 * p);
    Pow2Add(E - 1, f);
    if E - 1 + f <= 12 {
      Pow2Monotone(E - 1 + f, 12);
      TwelveBits();
    } else {
      Pow2Monotone(13, E - 1 + f);
      TwelveBits();
    }
  }

  /** The grain of a 40-bit quotient is at most 2^-16 of the last place it is rounded to. */
  lemma GrainIsSmall(q: nat, e: int, lo: nat)
    requires q >= 0x80_0000_0000
    requires q * Grain(e) < Units(lo + 1) * (8 * Spread(e))
    ensures 0x1_0000 * Grain(e) <= UlpOf(lo) * (8 * Spread(e))
  {
    hide Pow2, Units;
    var E, s := EffectiveExponent(lo), Significand(lo);
    assert lo == (E - 1) * HIDDEN + s && lo + 1 == (E - 1) * HIDDEN + (s + 1);
    UnitsOfParts(E, s + 1);
    if e >= 1 {
      GrainExponent(E, e, s + 1, q);
      Pow2Add(E - e, e - 1);
      Pow2Monotone(13, E - e);
      TwelveBits();
      ScaleMonotone(0x2000, Pow2(E - e), Pow2(e - 1));
    } else {
      SpreadExponent(E, 1 - e, s + 1, q);
    }
  }

  lemma TieError(a: nat, u: nat, v: nat, w: nat, B: nat, A: nat, q: nat)
    requires B > 0 && w > 0 && A <= (q + 1) * B && q * B <= A
    requires 2 * (q * w) == (a + (a + u)) * (8 * v)
    requires 0x1_0000 * w <= u * (8 * v)
    ensures 0 <= 0x1_0000 * (A * w - a * (8 * (v * B))) <= 0x8001 * (u * (8 * (v * B)))
  {
    EightFold(a, v, B);
    EightFold(u, v, B);
    var x, y := a * (8 * v), u * (8 * v);
    assert q * w == x + 4 * (u * v) by { EightFold(a, v, 1); EightFold(u, v, 1); }
    assert (q + 1) * w == q * w + w;
    assert A * w <= (q + 1) * w * B by {
      ScaleMonotone(A, (q + 1) * B, w);
      MulAssoc(q + 1, B, w);
      MulAssoc(q + 1, w, B);
    }
    assert A * w >= q * w * B by {
      ScaleMonotone(q * B, A, w);
      MulAssoc(q, B, w);
      MulAssoc(q, w, B);
    }
    TieBound(x, 4 * (u * v), w, y, B, A * w, q * w);
  }

  lemma TieBound(x: nat, h: nat, w: nat, y: nat, B: nat, n: nat, p: nat)
    requires B > 0 && p == x + h && y == 2 * h && 0x1_0000 * w <= y
    requires p * B <= n <= (p + w) * B
    ensures 0 <= 0x1_0000 * (n - x * B) <= 0x8001 * (y * B)
  {
    assert (x + h) * B == x * B + h * B;
    assert (x + h + w) * B == x * B + h * B + w * B;
    ScaleMonotone(0x1_0000 * w, y, B);
    assert y * B == 2 * (h * B);
    assert 0x1_0000 * w * B == 0x1_0000 * (w * B);
  }

  /** Rounding the truncated quotient is within 1/2 + 2^-16 units in the last place of the exact
      quotient, always. */
  lemma TruncationError(A: nat, B: nat, q: nat, e: int, m: nat)
    requires B > 0 && q * B <= A < (q + 1) * B && q >= 0x80_0000_0000
    requires RoundsTo(q * Grain(e), 8 * Spread(e), m) && m < INFINITY
    ensures var d := 8 * (Spread(e) * B);
      0x1_0000 * Distance(A * Grain(e), d, m) <= 0x8001 * (UlpOf(m) * d)
  {
    hide Units, UlpOf, Distance, RoundsTo, TiesDown, Grain, Spread;
    TruncationRounds(A, B, q, e, m);
    var w, v := Grain(e), Spread(e);
    if RoundsTo(A * w, 8 * (v * B), m) {
      ScaleMonotone(0, v, B);
      WithinHalfUlp(A * w, 8 * (v * B), m);
    } else {
      TieIsLower(q * w, v, m);
      GrainIsSmall(q, e, m);
      TieCase(A, B, q, w, v, m);
    }
  }

  lemma TieCase(A: nat, B: nat, q: nat, w: nat, v: nat, m: nat)
    requires B > 0 && w > 0 && q * B <= A < (q + 1) * B
    requires 2 * (q * w) == (Units(m) + Units(m + 1)) * (8 * v)
    requires 0x1_0000 * w <= UlpOf(m) * (8 * v)
    ensures 0x1_0000 * Distance(A * w, 8 * (v * B), m) <= 0x8001 * (UlpOf(m) * (8 * (v * B)))
  {
    hide Units, UlpOf;
    UlpIsStep(m);
    TieError(Units(m), UlpOf(m), v, w, B, A, q);
  }

  /** A tie that rounds down rounds to its lower neighbour. */
  lemma TieIsLower(n: nat, d: nat, m: nat)
    requires d > 0 && RoundsTo(n, 8 * d, m) && m < INFINITY && TiesDown(n, d)
    ensures 2 * n == (Units(m) + Units(m + 1)) * (8 * d)
    ensures n < Units(m + 1) * (8 * d)
  {
    hide Units, RoundsTo, TiesDown;
    var lo := Bracket(n, 8 * d, m);
    TiesDownInBracket(n, d, lo);
    RoundedBetween(n, 8 * d, lo, lo);
    RoundingUnique(n, 8 * d, m, lo);
    StepScaled(Units(lo), Units(lo + 1), 8 * d);
  }
}
