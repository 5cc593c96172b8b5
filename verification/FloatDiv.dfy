/**
 `internal_float_div` (nemu/src/cpu/fpu.c). The source divides a dividend of 64 significant bits by
 an odd divisor and drops the remainder. Rounding that truncated quotient is rounding the exact one,
 except exactly where the truncated quotient is a tie that rounds down although something was
 dropped, and in the lost-carry band of the normaliser.
 */
module FloatDiv {
  import opened Powers
  import opened Binary32
  import opened GuardBits
  import opened Normalizer
  import opened Truncation
  import FloatAdd
  import FloatMul

  const CORNER_DIV: seq<FloatAdd.CornerRule> := [
    FloatAdd.CornerRule(P_ZERO, P_ZERO, N_NAN),
    FloatAdd.CornerRule(N_ZERO, P_ZERO, N_NAN),
    FloatAdd.CornerRule(P_ZERO, N_ZERO, N_NAN),
    FloatAdd.CornerRule(N_ZERO, N_ZERO, N_NAN),
    FloatAdd.CornerRule(P_INF, P_ZERO, P_INF),
    FloatAdd.CornerRule(N_INF, P_ZERO, N_INF),
    FloatAdd.CornerRule(P_INF, N_ZERO, N_INF),
    FloatAdd.CornerRule(N_INF, N_ZERO, P_INF),
    FloatAdd.CornerRule(P_INF, P_INF, N_NAN),
    FloatAdd.CornerRule(N_INF, P_INF, N_NAN),
    FloatAdd.CornerRule(P_INF, N_INF, N_NAN),
    FloatAdd.CornerRule(N_INF, N_INF, N_NAN)
  ]

  const TOP: nat := 0x8000_0000_0000_0000   // 2^63

  /** How often the dividend's significand is doubled before its top bit is bit 63. */
  function Doublings(s: nat): (k: nat)
    requires s > 0
    decreases if s < TOP then TOP - s else 0
  {
    if s >= TOP then 0 else 1 + Doublings(2 * s)
  }

  /** How often the divisor's significand is halved before it is odd. */
  function Halvings(s: nat): (k: nat)
    requires s > 0
  {
    if s % 2 == 1 then 0 else 1 + Halvings(s / 2)
  }

  function OddPart(s: nat): (o: nat)
    requires s > 0
    ensures o % 2 == 1 && o <= s
  {
    if s % 2 == 1 then s else OddPart(s / 2)
  }

  lemma {:induction false} OddPartFactors(s: nat)
    requires s > 0
    ensures s == OddPart(s) * Pow2(Halvings(s))
    decreases s
  {
    if s % 2 == 0 {
      OddPartFactors(s / 2);
      MulAssoc(OddPart(s), 2, Pow2(Halvings(s / 2)));
    }
  }

  lemma {:induction false} DoublingsReachTop(s: nat)
    requires 0 < s < 2 * TOP
    ensures TOP <= s * Pow2(Doublings(s)) < 2 * TOP
    decreases if s < TOP then TOP - s else 0
  {
    if s < TOP {
      DoublingsReachTop(2 * s);
      MulAssoc(s, 2, Pow2(Doublings(2 * s)));
    }
  }

  lemma {:induction false} DoublingsBound(s: nat, k: nat)
    requires s > 0 && s * Pow2(k) >= TOP
    ensures Doublings(s) <= k
    decreases k
  {
    if s < TOP && k > 0 {
      MulAssoc(s, 2, Pow2(k - 1));
      DoublingsBound(2 * s, k - 1);
    }
  }

  lemma TopPower()
    ensures Pow2(63) == TOP
  {
    hide Pow2;
    EighthPower(0);
    EighthPower(8);
    EighthPower(16);
    EighthPower(24);
    EighthPower(32);
    EighthPower(40);
    EighthPower(48);
    EighthPower(56);
    FirstPower();
  }

  lemma EighthPower(k: nat)
    ensures Pow2(k + 8) == 0x100 * Pow2(k) && Pow2(k + 8) == 2 * Pow2(k + 7)
  {
    assert Pow2(k + 7) == 2 * Pow2(k + 6) && Pow2(k + 6) == 2 * Pow2(k + 5) && Pow2(k + 5) == 2 * Pow2(k + 4);
    assert Pow2(k + 4) == 2 * Pow2(k + 3) && Pow2(k + 3) == 2 * Pow2(k + 2) && Pow2(k + 2) == 2 * Pow2(k + 1);
  }

  lemma FirstPower()
    ensures Pow2(0) == 1
  {
  }

  lemma DoublingsAtMost63(s: nat)
    requires s > 0
    ensures Doublings(s) <= 63
  {
    hide Pow2, Doublings;
    TopPower();
    ScaleMonotone(1, s, Pow2(63));
    DoublingsBound(s, 63);
  }

  lemma {:induction false} HalvingsBound(s: nat, k: nat)
    requires 0 < s < Pow2(k)
    ensures Halvings(s) <= k
    decreases k
  {
    if s % 2 == 0 {
      HalvingsBound(s / 2, k - 1);
    }
  }

  /** The shifted dividend, the odd divisor, and what is handed to the normaliser. */
  function Dividend(ma: nat): nat
    requires ma > 0
  {
    Significand(ma) * Pow2(Doublings(Significand(ma)))
  }

  function Divisor(mb: nat): (o: nat)
    requires mb > 0
    ensures o > 0
  {
    OddPart(Significand(mb))
  }

  function QuotientSignificand(ma: nat, mb: nat): nat
    requires ma > 0 && mb > 0
  {
    UnsignedQuotient(Dividend(ma), Divisor(mb))
  }

  function UnsignedQuotient(a: nat, b: nat): nat
    requires b > 0
  {
    a / b
  }

  function QuotientExponent(ma: nat, mb: nat): int
    requires ma > 0 && mb > 0
  {
    var shift := Doublings(Significand(ma)) + Halvings(Significand(mb));
    EffectiveExponent(ma) - EffectiveExponent(mb) + 127 - (shift - 23 - 3)
  }

  /** The truncated quotient is in the band whose carry is lost. */
  predicate InBand(ma: nat, mb: nat)
    requires ma > 0 && mb > 0
  {
    LosesCarry(QuotientSignificand(ma, mb) * Grain(QuotientExponent(ma, mb)), Spread(QuotientExponent(ma, mb)))
  }

  /** The exact quotient is Units(ma) * 2^149 / Units(mb) units. The source rounds it correctly unless
      the truncated quotient is in the lost-carry band, or is a tie that rounds down while a
      remainder was dropped. */
  ghost predicate QuotientIsSafe(ma: nat, mb: nat)
    requires ma > 0 && mb > 0
  {
    var e, q := QuotientExponent(ma, mb), QuotientSignificand(ma, mb);
    && !InBand(ma, mb)
    && !(Dividend(ma) % Divisor(mb) != 0 && TiesDown(q * Grain(e), Spread(e)))
  }

  lemma QuotientBounds(ma: nat, mb: nat)
    requires 0 < ma && 0 < mb
    ensures var A, B, q := Dividend(ma), Divisor(mb), QuotientSignificand(ma, mb);
      && q * B <= A < (q + 1) * B
      && (A > q * B <==> A % B != 0)
      && 0x80_0000_0000 <= q < 2 * TOP
    ensures Doublings(Significand(ma)) <= 63 && Halvings(Significand(mb)) <= 24
  {
    var A, B := Dividend(ma), Divisor(mb);
    TwelveBits();
    assert Pow2(24) == 0x100_0000 by { Pow2Add(12, 12); }
    hide Pow2;
    DoublingsReachTop(Significand(ma));
    DoublingsAtMost63(Significand(ma));
    HalvingsBound(Significand(mb), 24);
    DivisionFacts(A, B);
  }

  lemma DivisionFacts(A: nat, B: nat)
    requires TOP <= A < 2 * TOP && 0 < B < 2 * HIDDEN
    ensures var q := A / B; q * B <= A < (q + 1) * B && (A > q * B <==> A % B != 0) && 0x80_0000_0000 <= q < 2 * TOP
  {
    var q := A / B;
    assert A == q * B + A % B;
    if q < 0x80_0000_0000 {
      ScaleMonotone(q + 1, 0x80_0000_0000, B);
    }
    if q >= 2 * TOP {
      ScaleMonotone(2 * TOP, q, B);
    }
  }

  /** The grain of the truncated quotient times the shifted operands is the exact quotient. */
  lemma QuotientValue(ma: nat, mb: nat)
    requires ma > 0 && mb > 0
    ensures var e := QuotientExponent(ma, mb);
      Units(ma) * Pow2(149) * (8 * (Spread(e) * Divisor(mb))) == Dividend(ma) * Grain(e) * Units(mb)
  {
    hide Pow2, EffectiveExponent, OddPart, Doublings, Halvings, Grain, Spread;
    var sa, sb := Significand(ma), Significand(mb);
    OddPartFactors(sb);
    QuotientPowers(sa, Divisor(mb), EffectiveExponent(ma), EffectiveExponent(mb), Doublings(sa), Halvings(sb),
      QuotientExponent(ma, mb));
  }

  lemma QuotientPowers(s: nat, B: nat, ea: nat, eb: nat, k1: nat, k2: nat, e: int)
    requires ea >= 1 && eb >= 1 && e == ea - eb + 153 - k1 - k2
    ensures s * Pow2(ea - 1) * Pow2(149) * (8 * (Spread(e) * B)) ==
            s * Pow2(k1) * Grain(e) * (B * Pow2(k2) * Pow2(eb - 1))
  {
    hide *;
    var v, w := if e >= 1 then 0 else 1 - e, if e >= 1 then e - 1 else 0;
    GrainPowers(e, v, w);
    Pow2Add(ea - 1, 149);
    Pow2Add(3, v);
    Pow2Add(k1, w);
    Pow2Add(k2, eb - 1);
    SumsAgree(ea + 148, 3 + v, k1 + w, k2 + eb - 1);
    FactorSwap(s, B, Pow2(ea - 1), Pow2(149), Spread(e), Pow2(k1), Grain(e), Pow2(k2), Pow2(eb - 1),
      Pow2(ea + 148), Pow2(3 + v), Pow2(k1 + w), Pow2(k2 + eb - 1));
  }

  lemma GrainPowers(e: int, v: nat, w: nat)
    requires v == (if e >= 1 then 0 else 1 - e) && w == if e >= 1 then e - 1 else 0
    ensures Spread(e) == Pow2(v) && Grain(e) == Pow2(w) && Pow2(3) == 8
  {
    assert Pow2(0) == 1;
  }

  lemma SumsAgree(a: nat, b: nat, c: nat, d: nat)
    requires a + b == c + d
    ensures Pow2(a) * Pow2(b) == Pow2(c) * Pow2(d)
    decreases b
  {
    if b == 0 {
      Pow2Add(c, d);
    } else if d == 0 {
      Pow2Add(a, b);
    } else {
      SumsAgree(a, b - 1, c, d - 1);
      MulAssoc(2, Pow2(a), Pow2(b - 1));
      MulAssoc(2, Pow2(c), Pow2(d - 1));
    }
  }

  lemma FactorSwap(s: nat, B: nat, p1: nat, p2: nat, v: nat, k1: nat, w: nat, k2: nat, p3: nat,
      x: nat, y: nat, x': nat, y': nat)
    requires p1 * p2 == x && 8 * v == y && k1 * w == x' && k2 * p3 == y' && x * y == x' * y'
    ensures s * p1 * p2 * (8 * (v * B)) == s * k1 * w * (B * k2 * p3)
  {
    calc {
      s * p1 * p2 * (8 * (v * B));
      (s * (p1 * p2)) * (B * (8 * v));
      { MulSwap(s, x, B, y); }
      (s * B) * (x * y);
      (s * B) * (x' * y');
      { MulSwap(s, x', B, y'); }
      (s * (k1 * w)) * (B * (k2 * p3));
      s * k1 * w * (B * k2 * p3);
    }
  }

  /** The exact quotient is Raised(ma) / Units(mb) units. */
  function Raised(ma: nat): nat { Times(Units(ma), Pow2(149)) }

  /** The correctly rounded quotient. */
  ghost predicate RoundsQuotient(ma: nat, mb: nat, m: nat) {
    RoundsTo(Raised(ma), Units(mb), m)
  }

  lemma QuotientRoundsIff(ma: nat, mb: nat, m: nat)
    requires ma > 0 && mb > 0 && NormalizedQuotient(ma, mb, m)
    ensures Units(mb) > 0
    ensures RoundsQuotient(ma, mb, m) <==> QuotientIsSafe(ma, mb)
  {
    QuotientMeans(ma, mb, m);
    NormalizedMeans(ma, mb, m);
    hide *;
    UnitsPositive(mb);
    TruncatedQuotient(ma, mb);
    SafeMeans(ma, mb);
    var e, q, A, B := QuotientExponent(ma, mb), QuotientSignificand(ma, mb), Dividend(ma), Divisor(mb);
    TruncatedRoundsIff(A, B, q, e, m, Raised(ma), Units(mb));
  }

  /** What the normaliser makes of the truncated quotient. */
  ghost predicate NormalizedQuotient(ma: nat, mb: nat, m: nat)
    requires ma > 0 && mb > 0
  {
    var e, q := QuotientExponent(ma, mb), QuotientSignificand(ma, mb);
    Normalized(ValueNum(e, q), ValueDen(e, q), m)
  }

  lemma NormalizedMeans(ma: nat, mb: nat, m: nat)
    requires ma > 0 && mb > 0
    ensures var e, q := QuotientExponent(ma, mb), QuotientSignificand(ma, mb);
      && (NormalizedQuotient(ma, mb, m) <==> Normalized(ValueNum(e, q), ValueDen(e, q), m))
      && (InBand(ma, mb) <==> LosesCarry(q * Grain(e), Spread(e)))
  {
    hide Normalized, LosesCarry, QuotientExponent, QuotientSignificand, ValueNum, ValueDen, Grain, Spread;
  }

  lemma QuotientMeans(ma: nat, mb: nat, m: nat)
    ensures RoundsQuotient(ma, mb, m) <==> RoundsTo(Raised(ma), Units(mb), m)
  {
    hide RoundsTo, Units, Raised;
  }

  /** q is A / B without its remainder, of 40 bits or more, and stands for the value x / y. */
  ghost predicate Truncates(A: nat, B: nat, q: nat, e: int, x: nat, y: nat) {
    && B > 0 && q * B <= A < (q + 1) * B && 0x80_0000_0000 <= q
    && x * (8 * (Spread(e) * B)) == A * Grain(e) * y
  }

  ghost predicate SafeQuotient(A: nat, B: nat, q: nat, e: int) {
    B > 0 && !LosesCarry(q * Grain(e), Spread(e)) && !(A % B != 0 && TiesDown(q * Grain(e), Spread(e)))
  }

  lemma TruncatedQuotient(ma: nat, mb: nat)
    requires ma > 0 && mb > 0
    ensures Truncates(Dividend(ma), Divisor(mb), QuotientSignificand(ma, mb), QuotientExponent(ma, mb),
                      Raised(ma), Units(mb))
  {
    hide Pow2, Units, Grain, Spread, Dividend, Divisor, QuotientSignificand, QuotientExponent;
    QuotientBounds(ma, mb);
    QuotientValue(ma, mb);
  }

  lemma SafeMeans(ma: nat, mb: nat)
    requires ma > 0 && mb > 0
    ensures QuotientIsSafe(ma, mb) <==>
      SafeQuotient(Dividend(ma), Divisor(mb), QuotientSignificand(ma, mb), QuotientExponent(ma, mb))
  {
    hide TiesDown, LosesCarry, Grain, Spread, Dividend, Divisor, QuotientExponent, QuotientSignificand;
  }

  lemma TruncatedRoundsIff(A: nat, B: nat, q: nat, e: int, m: nat, x: nat, y: nat)
    requires Truncates(A, B, q, e, x, y) && Normalized(ValueNum(e, q), ValueDen(e, q), m) && y > 0
    ensures RoundsTo(x, y, m) <==> SafeQuotient(A, B, q, e)
  {
    hide RoundsTo, Normalized, LosesCarry, TiesDown, Grain, Spread, ValueNum, ValueDen;
    var d := 8 * (Spread(e) * B);
    TruncatedIff(A, B, q, e, m);
    ScaleMonotone(0, Spread(e), B);
    SameRounding(x, y, A * Grain(e), d, m);
    RemainderIff(A, B, q);
  }

  lemma RemainderIff(A: nat, B: nat, q: nat)
    requires B > 0 && q * B <= A < (q + 1) * B
    ensures A > q * B <==> A % B != 0
  {
    assert q * B == B * q && (q + 1) * B == B * q + B;
    DivMod(A, B, q, A - q * B);
  }

  lemma SameRounding(x: nat, y: nat, n: nat, d: nat, m: nat)
    requires y > 0 && d > 0 && x * d == n * y
    ensures RoundsTo(x, y, m) <==> RoundsTo(n, d, m)
  {
    hide RoundsTo;
    RoundingOfEqualValues(x, y, n, d, m);
  }

  lemma UnitsPositive(m: nat)
    requires m > 0
    ensures Units(m) > 0
  {
    UnitsOfParts(1, 0);
    UnitsMonotone(0, m);
  }

  lemma TruncatedIff(A: nat, B: nat, q: nat, e: int, m: nat)
    requires B > 0 && q * B <= A < (q + 1) * B && 0x80_0000_0000 <= q
    requires Normalized(ValueNum(e, q), ValueDen(e, q), m)
    ensures Spread(e) * B > 0
    ensures RoundsTo(A * Grain(e), 8 * (Spread(e) * B), m) <==>
      !LosesCarry(q * Grain(e), Spread(e)) && !(A > q * B && TiesDown(q * Grain(e), Spread(e)))
  {
    var n, d := q * Grain(e), Spread(e);
    ReadAsItIs(e, q);
    hide Pow2, Units, RoundsTo, TiesDown, Grain, Spread, ValueNum, ValueDen;
    ScaleMonotone(0, d, B);
    if LosesCarry(n, d) {
      BandExact(A, B, q, Grain(e), d);
      AboveBandIsNotZero(A * Grain(e), d * B);
    } else {
      TruncationRounds(A, B, q, e, m);
    }
  }

  lemma BandExact(A: nat, B: nat, q: nat, w: nat, v: nat)
    requires B > 0 && v > 0 && w > 0 && q * B <= A
    requires q * w >= (NORMAL - 4) * v
    ensures A * w >= (NORMAL - 4) * (v * B)
  {
    ScaleMonotone((NORMAL - 4) * v, q * w, B);
    ScaleMonotone(q * B, A, w);
    assert q * w * B == q * B * w by { MulAssoc(q, w, B); MulAssoc(q, B, w); }
    MulAssoc(NORMAL - 4, v, B);
  }

  /** m is within 1/2 + 2^-16 units in the last place of the exact quotient. */
  predicate NearQuotient(ma: nat, mb: nat, m: nat) {
    0x1_0000 * Distance(Raised(ma), Units(mb), m) <= 0x8001 * (UlpOf(m) * Units(mb))
  }

  /** How far a result that escaped the lost-carry band can be from the exact quotient. */
  lemma QuotientError(ma: nat, mb: nat, m: nat)
    requires ma > 0 && mb > 0 && m < INFINITY && !InBand(ma, mb) && NormalizedQuotient(ma, mb, m)
    ensures NearQuotient(ma, mb, m)
  {
    hide Pow2, Units, Distance, Normalized, LosesCarry, Grain, Spread, Dividend, Divisor, ValueNum, ValueDen, UlpOf;
    hide QuotientExponent, QuotientSignificand;
    QuotientBounds(ma, mb);
    QuotientValue(ma, mb);
    var e, q, A, B := QuotientExponent(ma, mb), QuotientSignificand(ma, mb), Dividend(ma), Divisor(mb);
    TruncatedError(A, B, q, e, m);
    ErrorOfEqualValues(A * Grain(e), 8 * (Spread(e) * B), Raised(ma), Units(mb), m);
  }

  lemma TruncatedError(A: nat, B: nat, q: nat, e: int, m: nat)
    requires B > 0 && q * B <= A < (q + 1) * B && 0x80_0000_0000 <= q && m < INFINITY
    requires !LosesCarry(q * Grain(e), Spread(e)) && Normalized(ValueNum(e, q), ValueDen(e, q), m)
    ensures Spread(e) * B > 0
    ensures var d := 8 * (Spread(e) * B);
      0x1_0000 * Distance(A * Grain(e), d, m) <= 0x8001 * (UlpOf(m) * d)
  {
    ReadAsItIs(e, q);
    hide Pow2, Units, Distance, LosesCarry, RoundsTo, Grain, Spread, ValueNum, ValueDen, UlpOf;
    ScaleMonotone(0, Spread(e), B);
    TruncationError(A, B, q, e, m);
  }

  lemma ErrorOfEqualValues(n: nat, d: nat, n': nat, d': nat, m: nat)
    requires d > 0 && n * d' == n' * d
    requires 0x1_0000 * Distance(n, d, m) <= 0x8001 * (UlpOf(m) * d)
    ensures 0x1_0000 * Distance(n', d', m) <= 0x8001 * (UlpOf(m) * d')
  {
    if d' == 0 {
      assert n' == 0 by { ScaleMonotone(0, n', d); }
    } else {
      DistanceScales(n, d, d', m);
      DistanceScales(n', d', d, m);
      assert d * d' == d' * d;
      CancelFactor(Distance(n, d, m), UlpOf(m), d, d', Distance(n', d', m));
    }
  }

  lemma CancelFactor(x: nat, u: nat, d: nat, d': nat, x': nat)
    requires d > 0 && d' > 0 && x * d' == x' * d
    requires 0x1_0000 * x <= 0x8001 * (u * d)
    ensures 0x1_0000 * x' <= 0x8001 * (u * d')
  {
    ScaleMonotone(0x1_0000 * x, 0x8001 * (u * d), d');
    assert 0x1_0000 * x * d' == 0x1_0000 * x' * d;
    assert 0x8001 * (u * d) * d' == 0x8001 * (u * d') * d;
    ScaleMonotone(0x8001 * (u * d'), 0x1_0000 * x', d);
  }

  // ---------------------------------------------------------------- the algorithm

  /** Everything the source's quotient promises for operands that are not NaN: a / b. */
  ghost predicate IsQuotient(a: Word, b: Word, r: Word) {
    if (IsInfinite(a) && IsInfinite(b)) || (IsZero(a) && IsZero(b)) then IsNaN(r)
    else
      && (SignOf(r) == 1 <==> SignOf(a) != SignOf(b))
      && if IsInfinite(a) || IsZero(b) then IsInfinite(r)
         else if IsInfinite(b) || IsZero(a) then IsZero(r)
         else IsFiniteQuotient(MagnitudeOf(a), MagnitudeOf(b), MagnitudeOf(r))
  }

  /** For finite nonzero operands: correctly rounded exactly in the safe cases, and near in all cases
      above the lost-carry band. */
  ghost predicate IsFiniteQuotient(ma: nat, mb: nat, m: nat)
    requires ma > 0 && mb > 0
  {
    && Units(mb) > 0
    && NormalizedQuotient(ma, mb, m)
    && (RoundsQuotient(ma, mb, m) <==> QuotientIsSafe(ma, mb))
    && (InBand(ma, mb) ==> m == 0)
    && (!InBand(ma, mb) && m < INFINITY ==> NearQuotient(ma, mb, m))
  }

  /** What is returned otherwise: zero in the band, where the rounded quotient is 2^-126, and one unit in
      the last place too little at the ties. */
  lemma UnsafeQuotient(ma: nat, mb: nat, m: nat)
    requires ma > 0 && mb > 0 && NormalizedQuotient(ma, mb, m) && !QuotientIsSafe(ma, mb)
    ensures if InBand(ma, mb) then m == 0 && RoundsQuotient(ma, mb, HIDDEN)
            else m < INFINITY && RoundsQuotient(ma, mb, m + 1)
  {
    QuotientMeans(ma, mb, HIDDEN);
    QuotientMeans(ma, mb, m + 1);
    NormalizedMeans(ma, mb, m);
    hide *;
    UnitsPositive(mb);
    TruncatedQuotient(ma, mb);
    SafeMeans(ma, mb);
    UnsafeTruncated(Dividend(ma), Divisor(mb), QuotientSignificand(ma, mb), QuotientExponent(ma, mb), m,
                    Raised(ma), Units(mb));
  }

  lemma UnsafeTruncated(A: nat, B: nat, q: nat, e: int, m: nat, x: nat, y: nat)
    requires Truncates(A, B, q, e, x, y) && Normalized(ValueNum(e, q), ValueDen(e, q), m) && y > 0
    requires !SafeQuotient(A, B, q, e)
    ensures if LosesCarry(q * Grain(e), Spread(e)) then m == 0 && RoundsTo(x, y, HIDDEN)
            else m < INFINITY && RoundsTo(x, y, m + 1)
  {
    ReadAsItIs(e, q);
    hide RoundsTo, LosesCarry, TiesDown, Grain, Spread, ValueNum, ValueDen;
    var v, w := Spread(e), Grain(e);
    ScaleMonotone(0, v, B);
    if LosesCarry(q * w, v) {
      BandOfExact(A, B, q, e);
      BandRounds(A * w, v * B);
      SameRounding(x, y, A * w, 8 * (v * B), HIDDEN);
    } else {
      RemainderIff(A, B, q);
      TieFallsShort(A, B, q, e, m);
      SameRounding(x, y, A * w, 8 * (v * B), m + 1);
    }
  }

  lemma ReadAsItIs(e: int, q: nat)
    requires q >= CARRIED
    ensures ValueNum(e, q) == q * Grain(e) && ValueDen(e, q) == Spread(e)
  {
  }

  /** The exact quotient is in the band with the truncated one. */
  lemma BandOfExact(A: nat, B: nat, q: nat, e: int)
    requires B > 0 && q * B <= A < (q + 1) * B && 0x80_0000_0000 <= q && LosesCarry(q * Grain(e), Spread(e))
    ensures LosesCarry(A * Grain(e), Spread(e) * B)
  {
    hide Pow2;
    BandExact(A, B, q, Grain(e), Spread(e));
    if e >= 1 { ScaleMonotone(1, Grain(e), q); }
    assert Grain(e) == 1;
    ScaleMonotone(q + 1, NORMAL * Spread(e), B);
    MulAssoc(NORMAL, Spread(e), B);
  }

  lemma GeneralQuotient(ma: nat, mb: nat, m: nat)
    requires ma > 0 && mb > 0 && NormalizedQuotient(ma, mb, m)
    ensures IsFiniteQuotient(ma, mb, m)
  {
    hide NormalizedQuotient, RoundsQuotient, QuotientIsSafe, InBand, NearQuotient;
    QuotientRoundsIff(ma, mb, m);
    BandIsZero(ma, mb, m);
    if !InBand(ma, mb) && m < INFINITY {
      QuotientError(ma, mb, m);
    }
  }

  lemma BandIsZero(ma: nat, mb: nat, m: nat)
    requires ma > 0 && mb > 0 && NormalizedQuotient(ma, mb, m)
    ensures InBand(ma, mb) ==> m == 0
  {
    NormalizedMeans(ma, mb, m);
    QuotientBounds(ma, mb);
    ReadAsItIs(QuotientExponent(ma, mb), QuotientSignificand(ma, mb));
    hide NormalizedQuotient, InBand, RoundsTo, LosesCarry, Grain, Spread, ValueNum, ValueDen;
    hide QuotientExponent, QuotientSignificand, Dividend, Divisor;
  }

  /** Shift the dividend's significand up to bit 63. */
  method RaiseDividend(s: nat) returns (sigA: nat, shift: nat)
    requires 0 < s < 2 * TOP
    ensures sigA == s * Pow2(Doublings(s)) && shift == Doublings(s)
  {
    sigA, shift := s, 0;
    assert s * Pow2(0) == s;
    while sigA / TOP == 0
      invariant 0 < sigA
      invariant shift + Doublings(sigA) == Doublings(s)
      invariant sigA == s * Pow2(shift)
      decreases if sigA < TOP then TOP - sigA else 0
    {
      MulAssoc(s, 2, Pow2(shift));
      sigA := sigA * 2;
      shift := shift + 1;
    }
  }

  /** Shift the trailing zeros out of the divisor's significand. */
  method LowerDivisor(s: nat, start: nat) returns (sigB: nat, shift: nat)
    requires s > 0
    ensures sigB == OddPart(s) && shift == start + Halvings(s)
  {
    sigB, shift := s, start;
    while sigB % 2 == 0
      invariant 0 < sigB
      invariant shift + Halvings(sigB) == start + Halvings(s)
      invariant OddPart(sigB) == OddPart(s)
      decreases sigB
    {
      sigB := sigB / 2;
      shift := shift + 1;
    }
  }

  lemma SignificandBounds(m: nat)
    ensures m > 0 ==> 0 < Significand(m) < 2 * HIDDEN
  {
  }

  /** What the code computes is the quotient of the two scaled significands, and fits its words. */
  lemma QuotientOfParts(ma: nat, mb: nat)
    requires 0 < ma < 0x8000_0000 && 0 < mb < 0x8000_0000
    ensures var sa, sb := Significand(ma), Significand(mb);
      && sa > 0 && sb > 0
      && UnsignedQuotient(sa * Pow2(Doublings(sa)), OddPart(sb)) == QuotientSignificand(ma, mb) < 2 * TOP
      && EffectiveExponent(ma) - EffectiveExponent(mb) + 127 - (Doublings(sa) + Halvings(sb) - 23 - 3) ==
         QuotientExponent(ma, mb)
      && -0x8000_0000 <= QuotientExponent(ma, mb) < 0x8000_0000
  {
    SignificandBounds(ma);
    SignificandBounds(mb);
    QuotientBounds(ma, mb);
    hide Pow2, OddPart, Doublings, Halvings, UnsignedQuotient, Significand;
  }

  /** The general path. (A NaN with another payload than the two the source knows gets here, too.) */
  method DivGeneral(b: Word, a: Word) returns (r: Word)
    requires !IsZero(a) && !IsZero(b)
    ensures SignOf(r) == 1 <==> SignOf(a) != SignOf(b)
    ensures IsFiniteQuotient(MagnitudeOf(a), MagnitudeOf(b), MagnitudeOf(r))
  {
    hide IsFiniteQuotient, Normalized, ValueNum, ValueDen, Pow2, OddPart, Doublings, Halvings, UnsignedQuotient;
    hide Significand, EffectiveExponent, QuotientSignificand, QuotientExponent;
    ghost var ma, mb := MagnitudeOf(a), MagnitudeOf(b);
    SignificandBounds(ma);
    SignificandBounds(mb);
    var sigA, expA := FloatMul.Unpack(a);
    var sigB, expB := FloatMul.Unpack(b);
    var shift: nat;
    sigA, shift := RaiseDividend(sigA);
    sigB, shift := LowerDivisor(sigB, shift);
    var sigRes := UnsignedQuotient(sigA, sigB);
    var expRes := expA - expB + 127 - (shift - 23 - 3);
    QuotientOfParts(ma, mb);
    r := InternalNormalize(FloatMul.SignXor(a, b), expRes, sigRes);
    GeneralQuotient(ma, mb, MagnitudeOf(r));
  }

  lemma CornerQuotient(i: nat)
    requires i < |CORNER_DIV|
    ensures IsQuotient(CORNER_DIV[i].a, CORNER_DIV[i].b, CORNER_DIV[i].res)
  {
    hide IsFiniteQuotient;
  }

  lemma NoCornerLeft(a: Word, b: Word)
    requires forall k :: 0 <= k < |CORNER_DIV| ==> !(CORNER_DIV[k].a == a && CORNER_DIV[k].b == b)
    ensures !((IsInfinite(a) && IsInfinite(b)) || (IsZero(a) && IsZero(b)))
  {
    FieldsOf(a);
    FieldsOf(b);
    assert !(CORNER_DIV[0].a == a && CORNER_DIV[0].b == b) && !(CORNER_DIV[1].a == a && CORNER_DIV[1].b == b);
    assert !(CORNER_DIV[2].a == a && CORNER_DIV[2].b == b) && !(CORNER_DIV[3].a == a && CORNER_DIV[3].b == b);
    assert !(CORNER_DIV[8].a == a && CORNER_DIV[8].b == b) && !(CORNER_DIV[9].a == a && CORNER_DIV[9].b == b);
    assert !(CORNER_DIV[10].a == a && CORNER_DIV[10].b == b) && !(CORNER_DIV[11].a == a && CORNER_DIV[11].b == b);
  }

  method InternalFloatDiv(b: Word, a: Word) returns (r: Word)
    ensures !IsNaN(a) && !IsNaN(b) ==> IsQuotient(a, b, r)
  {
    hide IsFiniteQuotient, CORNER_DIV;
    FieldsOf(a);
    FieldsOf(b);
    var i := FloatAdd.FindCorner(CORNER_DIV, a, b);
    if i < |CORNER_DIV| {
      CornerQuotient(i);
      return CORNER_DIV[i].res;
    }
    NoCornerLeft(a, b);
    if a == P_NAN || a == N_NAN || b == P_NAN || b == N_NAN {
      return if a == P_NAN || b == P_NAN then P_NAN else N_NAN;
    }
    if a == P_INF || a == N_INF { return if FloatMul.SignXor(a, b) == 1 then N_INF else P_INF; }
    if b == P_ZERO || b == N_ZERO { return if FloatMul.SignXor(a, b) == 1 then N_INF else P_INF; }
    if a == P_ZERO || a == N_ZERO { return if FloatMul.SignXor(a, b) == 1 then N_ZERO else P_ZERO; }
    if b == P_INF || b == N_INF { return if FloatMul.SignXor(a, b) == 1 then N_ZERO else P_ZERO; }
    r := DivGeneral(b, a);
  }
}
