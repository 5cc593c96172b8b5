/** Laws of the soft-float operations, and concrete operands where the source misses correct rounding. */
module FloatLaws {
  import opened Powers
  import opened Binary32
  import opened GuardBits
  import opened Normalizer
  import opened Truncation
  import opened FloatAdd
  import opened FloatMul
  import opened FloatDiv

  /** Addition gives the same bits whichever operand comes first. */
  lemma AddCommutes(a: Word, b: Word, r: Word, r': Word)
    requires !IsNaN(a) && !IsNaN(b) && IsSum(a, b, r) && IsSum(b, a, r')
    ensures r == r' || (IsNaN(r) && IsNaN(r'))
  {
    FieldsOf(a);
    FieldsOf(b);
    FieldsOf(r);
    FieldsOf(r');
    hide RoundsTo, Units, Pow2;
    var s := SignedUnits(a) + SignedUnits(b);
    if IsFinite(a) && IsFinite(b) && s != 0 {
      RoundingUnique(Abs(s), 1, MagnitudeOf(r), MagnitudeOf(r'));
    }
  }

  lemma NormalizedUnique(n: nat, d: nat, m: nat, m': nat)
    requires d > 0 && Normalized(n, d, m) && Normalized(n, d, m')
    ensures m == m'
  {
    if !LosesCarry(n, d) { RoundingUnique(n, 8 * d, m, m'); }
  }

  /** Multiplication gives the same bits whichever operand comes first, in the unsafe bands, too. */
  lemma MulCommutes(a: Word, b: Word, r: Word, r': Word)
    requires !IsNaN(a) && !IsNaN(b) && IsProduct(a, b, r) && IsProduct(b, a, r')
    ensures r == r' || (IsNaN(r) && IsNaN(r'))
  {
    FieldsOf(a);
    FieldsOf(b);
    FieldsOf(r);
    FieldsOf(r');
    hide RoundsTo, Units, Pow2, Normalized, ProductIsSafe;
    if IsFinite(a) && IsFinite(b) && !IsZero(a) && !IsZero(b) {
      var ma, mb := MagnitudeOf(a), MagnitudeOf(b);
      ProductSymmetric(ma, mb);
      var e, p := ProductExponent(ma, mb), ProductSignificand(ma, mb);
      NormalizedUnique(ValueNum(e, p), ValueDen(e, p), MagnitudeOf(r), MagnitudeOf(r'));
    }
  }

  lemma ProductSymmetric(ma: nat, mb: nat)
    ensures ProductExponent(ma, mb) == ProductExponent(mb, ma)
    ensures ProductSignificand(ma, mb) == ProductSignificand(mb, ma)
  {
  }

  // ---------------------------------------------------------------- signs

  /** A product is negative exactly if the product of the signed values is. */
  lemma ProductSign(a: Word, b: Word, r: Word)
    requires IsFinite(a) && IsFinite(b) && !IsZero(a) && !IsZero(b) && IsProduct(a, b, r)
    ensures SignOf(r) == 1 <==> SignedUnits(a) * SignedUnits(b) < 0
  {
    hide NormalizedProduct, RoundsProduct, ProductIsSafe, Units;
    FieldsOf(a);
    FieldsOf(b);
    UnitsPositive(MagnitudeOf(a));
    UnitsPositive(MagnitudeOf(b));
    SignOfProduct(SignedUnits(a), SignedUnits(b));
  }

  /** And a quotient exactly if the signed values have different signs. */
  lemma QuotientSign(a: Word, b: Word, r: Word)
    requires IsFinite(a) && IsFinite(b) && !IsZero(a) && !IsZero(b) && IsQuotient(a, b, r)
    ensures SignOf(r) == 1 <==> SignedUnits(a) * SignedUnits(b) < 0
  {
    hide IsFiniteQuotient, Units;
    FieldsOf(a);
    FieldsOf(b);
    UnitsPositive(MagnitudeOf(a));
    UnitsPositive(MagnitudeOf(b));
    SignOfProduct(SignedUnits(a), SignedUnits(b));
  }

  lemma SignOfProduct(x: int, y: int)
    requires x != 0 && y != 0
    ensures x * y < 0 <==> (x < 0) != (y < 0)
  {
    assert x * y == (-x) * (-y);
  }

  // ---------------------------------------------------------------- exact quotients

  /** An odd divisor that divides a doubled number divides the number. */
  lemma OddDividesHalf(x: nat, B: nat, t: nat)
    requires B % 2 == 1 && 2 * x == t * B
    ensures t % 2 == 0 && x == t / 2 * B
  {
    var h, c := t / 2, B / 2;
    assert t == 2 * h + t % 2 && B == 2 * c + 1;
    assert 2 * h * B == 2 * (h * B);
    assert (2 * h + 1) * B == 2 * (h * B) + B;
  }

  lemma {:induction false} OddDivides(x: nat, k: nat, B: nat, t: nat) returns (u: nat)
    requires B % 2 == 1 && x * Pow2(k) == t * B
    ensures x == u * B
    decreases k
  {
    if k == 0 {
      u := t;
    } else {
      var y := x * Pow2(k - 1);
      assert 2 * y == x * Pow2(k) by { MulAssoc(2, x, Pow2(k - 1)); }
      OddDividesHalf(y, B, t);
      u := OddDivides(x, k - 1, B, t / 2);
    }
  }

  /** A representable quotient is returned exactly: nothing is dropped and no band is touched. */
  lemma ExactQuotient(ma: nat, mb: nat, m: nat, r: nat)
    requires ma > 0 && mb > 0 && m < INFINITY
    requires Units(ma) * Pow2(149) == Units(m) * Units(mb)
    requires IsFiniteQuotient(ma, mb, r)
    ensures r == m
  {
    hide Pow2, Units, LosesCarry, Grain, Spread, QuotientExponent, QuotientSignificand, Distance, UlpOf, RoundsTo;
    hide QuotientIsSafe;
    RepresentableIsSafe(ma, mb, m);
    RepresentableIsExact(Units(ma) * Pow2(149), Units(mb), m, r);
  }

  lemma RepresentableIsSafe(ma: nat, mb: nat, m: nat)
    requires ma > 0 && mb > 0 && Units(ma) * Pow2(149) == Units(m) * Units(mb)
    ensures QuotientIsSafe(ma, mb)
  {
    hide *;
    UnitsPositive(mb);
    SafeMeans(ma, mb);
    OddDivisor(ma, mb);
    RepresentableValue(ma, mb, m);
    ExactIsSafe(Dividend(ma), Divisor(mb), QuotientSignificand(ma, mb), QuotientExponent(ma, mb), Units(m));
  }

  lemma OddDivisor(ma: nat, mb: nat)
    requires ma > 0 && mb > 0
    ensures Divisor(mb) % 2 == 1 && QuotientSignificand(ma, mb) == Dividend(ma) / Divisor(mb)
  {
    hide Dividend, OddPart;
  }

  /** A quotient that is a whole number of units has no remainder and is not in the band. */
  lemma ExactIsSafe(A: nat, B: nat, q: nat, e: int, x: nat)
    requires B % 2 == 1 && q == A / B && A * Grain(e) == 8 * (x * Spread(e)) * B
    ensures SafeQuotient(A, B, q, e)
  {
    GrainIsPower(A, e);
    hide Pow2, LosesCarry, TiesDown, Grain, Spread;
    var t := 8 * (x * Spread(e));
    var u := OddDivides(A, if e >= 1 then e - 1 else 0, B, t);
    ExactTruncation(A, B, q, Grain(e), t, u);
    BandHasNoMultiple(x, Spread(e));
  }

  lemma GrainIsPower(A: nat, e: int)
    ensures A * Grain(e) == A * Pow2(if e >= 1 then e - 1 else 0)
  {
    assert Pow2(0) == 1;
  }

  lemma RepresentableValue(ma: nat, mb: nat, m: nat)
    requires ma > 0 && mb > 0 && Units(mb) > 0 && Units(ma) * Pow2(149) == Units(m) * Units(mb)
    ensures var e := QuotientExponent(ma, mb);
      Dividend(ma) * Grain(e) == 8 * (Units(m) * Spread(e)) * Divisor(mb)
  {
    var e, A, B := QuotientExponent(ma, mb), Dividend(ma), Divisor(mb);
    QuotientValue(ma, mb);
    CancelUnits(Units(m), Units(mb), 8 * (Spread(e) * B), A * Grain(e));
    EightFold(Units(m), Spread(e), B);
    MulAssoc(8, Units(m) * Spread(e), B);
  }

  lemma ExactTruncation(A: nat, B: nat, q: nat, w: nat, t: nat, u: nat)
    requires B > 0 && A * w == t * B && A == u * B && q == A / B
    ensures q == u && A % B == 0 && q * w == t
  {
    QuotientOfMultiple(A, B, u);
    assert q * w * B == A * w by { MulAssoc(q, B, w); MulAssoc(q, w, B); }
    CancelRight(q * w, t, B);
  }

  lemma CancelUnits(x: nat, y: nat, z: nat, n: nat)
    requires y > 0 && x * y * z == n * y
    ensures n == x * z
  {
    assert x * y * z == x * z * y;
    CancelRight(n, x * z, y);
  }

  lemma CancelRight(x: nat, y: nat, k: nat)
    requires k > 0 && x * k == y * k
    ensures x == y
  {
    ScaleMonotone(x, y, k);
    ScaleMonotone(y, x, k);
  }

  lemma QuotientOfMultiple(A: nat, B: nat, u: nat)
    requires B > 0 && A == u * B
    ensures A / B == u && A % B == 0
  {
    var q := A / B;
    assert A == q * B + A % B;
    if q < u { ScaleMonotone(q + 1, u, B); }
    if u < q { ScaleMonotone(u + 1, q, B); }
  }

  lemma BandHasNoMultiple(x: nat, v: nat)
    requires v > 0
    ensures !LosesCarry(8 * (x * v), v)
  {
    if x >= HIDDEN {
      ScaleMonotone(HIDDEN, x, v);
    } else {
      ScaleMonotone(x, HIDDEN - 1, v);
      assert 8 * ((HIDDEN - 1) * v) == (NORMAL - 8) * v;
      ScaleMonotone(NORMAL - 8, NORMAL - 4, v);
    }
  }

  // ---------------------------------------------------------------- from 2^-126 up

  /** A product of at least 2^-126 is always in the safe case. */
  lemma NormalProductIsSafe(ma: nat, mb: nat)
    requires ma > 0 && mb > 0 && Units(ma) * Units(mb) >= HIDDEN * Pow2(149)
    ensures ProductIsSafe(ma, mb)
  {
    hide Pow2, Units, ProductSignificand;
    if ProductExponent(ma, mb) == 0 {
      MisreadValue(ma, mb);
      ScaleMonotone(ProductSignificand(ma, mb), CARRIED, Pow2(149));
    }
  }

  /** A finite quotient of at least 2^-126 is within 1/2 + 2^-16 units in the last place of the exact
      one. */
  lemma NormalQuotientIsNear(ma: nat, mb: nat, m: nat)
    requires ma > 0 && mb > 0 && Units(ma) * Pow2(149) >= HIDDEN * Units(mb)
    requires IsFiniteQuotient(ma, mb, m) && m < INFINITY
    ensures 0x1_0000 * Distance(Units(ma) * Pow2(149), Units(mb), m) <= 0x8001 * (UlpOf(m) * Units(mb))
  {
    hide Distance, UlpOf, RoundsTo, QuotientIsSafe;
    NormalQuotientIsKept(ma, mb);
    hide Pow2, Units, LosesCarry, Grain, Spread, QuotientExponent, QuotientSignificand;
  }

  lemma NormalQuotientIsKept(ma: nat, mb: nat)
    requires ma > 0 && mb > 0 && Units(ma) * Pow2(149) >= HIDDEN * Units(mb)
    ensures var e, q := QuotientExponent(ma, mb), QuotientSignificand(ma, mb);
            !LosesCarry(q * Grain(e), Spread(e))
  {
    hide Pow2, Units, QuotientExponent, QuotientSignificand, Dividend, Divisor;
    var e, q, A, B := QuotientExponent(ma, mb), QuotientSignificand(ma, mb), Dividend(ma), Divisor(mb);
    QuotientBounds(ma, mb);
    QuotientValue(ma, mb);
    UnitsPositive(mb);
    KeptQuotient(A, B, q, Grain(e), Spread(e), Units(ma) * Pow2(149), Units(mb));
    if e >= 1 {
      ScaleMonotone(1, Grain(e), q);
    }
  }

  lemma KeptQuotient(A: nat, B: nat, q: nat, w: nat, v: nat, x: nat, y: nat)
    requires B > 0 && y > 0 && A < (q + 1) * B && x * (8 * (v * B)) == A * w * y && x >= HIDDEN * y
    ensures w == 1 ==> q >= NORMAL * v
  {
    if w == 1 {
      ScaleMonotone(HIDDEN * y, x, 8 * (v * B) + 1);
      assert HIDDEN * y * (8 * (v * B)) <= x * (8 * (v * B));
      assert HIDDEN * y * (8 * (v * B)) == (NORMAL * v * B) * y;
      ScaleMonotone(A, NORMAL * v * B, y);
      ScaleMonotone(q + 1, NORMAL * v, B);
    }
  }

  // ---------------------------------------------------------------- where the source misses

  /** (2 - 2^-23) * 2^-126 times 0.5 rounds to 2^-126, but the source's result is zero. */
  lemma ProductLosesSmallestNormal(r: Word)
    requires IsProduct(0x00ff_ffff, 0x3f00_0000, r)
    ensures !ProductIsSafe(0x00ff_ffff, 0x3f00_0000)
    ensures RoundsProduct(0x00ff_ffff, 0x3f00_0000, HIDDEN) && MagnitudeOf(r) == 0
  {
    hide Pow2, Units, RoundsTo, IsProduct, ProductIsSafe, ProductExponent, ProductSignificand;
    var a, b := 0x00ff_ffff, 0x3f00_0000;
    var h := SmallProduct();
    LostProductResult(a, b, r, h);
  }

  lemma LostProductResult(a: Word, b: Word, r: Word, h: nat)
    requires a == MagnitudeOf(a) && b == MagnitudeOf(b) && 0 < a < INFINITY && 0 < b < INFINITY
    requires ProductExponent(a, b) != 0 && IsProduct(a, b, r)
    requires h > 0 && Pow2(149) == 0x20_0000 * h && 8 * (Units(a) * Units(b)) == 0xff_ffff * HIDDEN * h
    ensures !ProductIsSafe(a, b) && RoundsProduct(a, b, HIDDEN) && MagnitudeOf(r) == 0
  {
    hide Pow2, Units, RoundsTo, LosesCarry, Normalized, ProductSignificand, ProductExponent, ValueNum, ValueDen;
    FieldsOf(a);
    FieldsOf(b);
    ProductInBand(Units(a) * Units(b), h);
    LostProduct(a, b, MagnitudeOf(r));
  }

  lemma SmallProduct() returns (h: nat)
    ensures h > 0 && Pow2(149) == 0x20_0000 * h
    ensures ProductExponent(0x00ff_ffff, 0x3f00_0000) == -20
    ensures 8 * (Units(0x00ff_ffff) * Units(0x3f00_0000)) == 0xff_ffff * HIDDEN * h
  {
    hide Pow2, Units;
    var ma, mb := 0x00ff_ffff, 0x3f00_0000;
    assert Significand(ma) == 0xff_ffff && EffectiveExponent(ma) == 1;
    assert Significand(mb) == HIDDEN && EffectiveExponent(mb) == 126;
    ProductUnits(ma, mb);
    h := Pow2(128);
    Pow2Add(21, 128);
    MoreBits();
  }

  lemma ProductInBand(x: nat, h: nat)
    requires h > 0 && 8 * x == 0xff_ffff * HIDDEN * h && Pow2(149) == 0x20_0000 * h
    ensures LosesCarry(8 * x, Pow2(149))
  {
  }

  /** 2^-149 times 2^19 is 2^-130 exactly, but the source's result is 2^-129. */
  lemma ProductMisreadDoubles(a: Word, b: Word, r: Word)
    requires a == 0x0000_0001 && b == 0x4900_0000 && IsProduct(a, b, r)
    ensures !ProductIsSafe(a, b) && RoundsProduct(a, b, 0x8_0000) && MagnitudeOf(r) == 0x10_0000
  {
    hide *;
    MisreadOperands();
    MisreadResult(a, b, r);
  }

  lemma MisreadResult(a: Word, b: Word, r: Word)
    requires a == MagnitudeOf(a) && b == MagnitudeOf(b) && 0 < a < INFINITY && 0 < b < INFINITY
    requires ProductExponent(a, b) == 0 && ProductSignificand(a, b) == HIDDEN && IsProduct(a, b, r)
    ensures !ProductIsSafe(a, b) && RoundsProduct(a, b, 0x8_0000) && MagnitudeOf(r) == 0x10_0000
  {
    hide Pow2, Units, RoundsTo, LosesCarry, Normalized, ProductExponent, ProductSignificand, ValueNum, ValueDen;
    FieldsOf(a);
    FieldsOf(b);
    ReadAtZero(HIDDEN);
    ReadTwice(MagnitudeOf(r));
    MisreadValue(a, b);
    ReadOnce(Units(a) * Units(b), Pow2(149));
  }

  lemma MisreadOperands()
    ensures var a: Word, b: Word := 0x0000_0001, 0x4900_0000;
      && a == MagnitudeOf(a) && b == MagnitudeOf(b) && 0 < a < INFINITY && 0 < b < INFINITY
      && ProductExponent(a, b) == 0 && ProductSignificand(a, b) == HIDDEN
  {
    assert Significand(0x0000_0001) == 1 && EffectiveExponent(0x0000_0001) == 1;
    assert Significand(0x4900_0000) == HIDDEN && EffectiveExponent(0x4900_0000) == 146;
  }

  lemma ReadTwice(m: nat)
    requires Normalized(HIDDEN, 1, m)
    ensures m == 0x10_0000
  {
    hide Pow2, Units, RoundsTo;
    SmallUnits(0x10_0000);
    RepresentableIsExact(HIDDEN, 8, 0x10_0000, m);
  }

  lemma ReadOnce(x: nat, y: nat)
    requires y > 0 && x * 16 == HIDDEN * y
    ensures RoundsTo(x, y, 0x8_0000)
  {
    hide Pow2, Units, RoundsTo;
    SmallUnits(0x8_0000);
    RepresentableIsExact(x, y, 0x8_0000, 0x8_0000);
  }

  lemma SmallUnits(m: nat)
    requires m <= HIDDEN
    ensures Units(m) == m
  {
    assert Pow2(0) == 1;
    UnitsOfParts(1, m);
  }

  /** (2 - 2^-23) * 2^-126 divided by 2 rounds to 2^-126, but the source's result is zero. */
  lemma QuotientLosesSmallestNormal(a: Word, b: Word, r: Word)
    requires a == 0x00ff_ffff && b == 0x4000_0000 && IsQuotient(a, b, r)
    ensures !QuotientIsSafe(a, b) && RoundsQuotient(a, b, HIDDEN) && MagnitudeOf(r) == 0
  {
    hide *;
    HalvedOperands();
    HalvedResult(a, b, r);
  }

  lemma HalvedResult(a: Word, b: Word, r: Word)
    requires a == MagnitudeOf(a) && b == MagnitudeOf(b) && 0 < a < INFINITY && 0 < b < INFINITY
    requires InBand(a, b) && IsQuotient(a, b, r)
    ensures !QuotientIsSafe(a, b) && RoundsQuotient(a, b, HIDDEN) && MagnitudeOf(r) == 0
  {
    hide InBand, NormalizedQuotient, RoundsQuotient, NearQuotient, TiesDown;
    FieldsOf(a);
    FieldsOf(b);
    UnsafeQuotient(a, b, MagnitudeOf(r));
  }

  lemma HalvedOperands()
    ensures var ma: Word, mb: Word := 0x00ff_ffff, 0x4000_0000;
      && ma == MagnitudeOf(ma) && mb == MagnitudeOf(mb) && 0 < ma < INFINITY && 0 < mb < INFINITY
      && InBand(ma, mb)
  {
    var ma, mb := 0x00ff_ffff, 0x4000_0000;
    assert Significand(ma) == 0xff_ffff && EffectiveExponent(ma) == 1;
    assert Significand(mb) == HIDDEN && EffectiveExponent(mb) == 128;
    MoreBits();
    assert Pow2(39) == 2 * Pow2(38);
    hide Pow2;
    DoublingsUnique(0xff_ffff, 40);
    PowerOfTwo(23);
  }

  lemma {:induction false} PowerOfTwo(k: nat)
    ensures OddPart(Pow2(k)) == 1 && Halvings(Pow2(k)) == k
  {
    if k > 0 {
      PowerOfTwo(k - 1);
    }
  }

  lemma {:induction false} DoublingsUnique(s: nat, k: nat)
    requires s > 0 && TOP <= s * Pow2(k) < 2 * TOP
    ensures Doublings(s) == k
    decreases k
  {
    if k == 0 {
    } else {
      MulAssoc(s, 2, Pow2(k - 1));
      ScaleMonotone(1, Pow2(k - 1), s);
      DoublingsUnique(2 * s, k - 1);
    }
  }

  /** 1.5 / (1 + 2^-23) is not correctly rounded: the truncated quotient is a tie over a remainder, and
      the source's result is the number below. */
  lemma QuotientMissesTie(a: Word, b: Word, r: Word)
    requires a == 0x3fc0_0000 && b == 0x3f80_0001 && IsQuotient(a, b, r)
    ensures !QuotientIsSafe(a, b) && RoundsQuotient(a, b, 0x3fbf_ffff) && MagnitudeOf(r) == 0x3fbf_fffe
  {
    hide *;
    TieOperands();
    TieQuotient(a, b);
    TieResult(a, b, r, 0x3fbf_fffe);
  }

  lemma TieQuotient(a: Word, b: Word)
    requires a == 0x3fc0_0000 && b == 0x3f80_0001 && QuotientExponent(a, b) == 113
    requires QuotientSignificand(a, b) == 1649267245056
    ensures !InBand(a, b) && IsTie(QuotientSignificand(a, b), QuotientExponent(a, b), 0x3fbf_fffe)
  {
    hide Units, QuotientExponent, QuotientSignificand;
    assert Grain(113) == Pow2(112) && Spread(113) == 1;
    TieBits(Pow2(112));
    assert 0x3fbf_fffe == 126 * HIDDEN + 12582910;
    ScaleMonotone(0, Pow2(112), 1649267245056);
  }

  /** The truncated quotient is half way between `lo` and its neighbour above. */
  ghost predicate IsTie(q: nat, e: int, lo: nat) {
    2 * (q * Grain(e)) == (Units(lo) + Units(lo + 1)) * (8 * Spread(e))
  }

  lemma TieResult(a: Word, b: Word, r: Word, lo: nat)
    requires a == MagnitudeOf(a) && b == MagnitudeOf(b) && 0 < a < INFINITY && 0 < b < INFINITY
    requires IsQuotient(a, b, r) && Dividend(a) % Divisor(b) != 0 && !InBand(a, b)
    requires IsTie(QuotientSignificand(a, b), QuotientExponent(a, b), lo) && lo % 2 == 0 && lo < INFINITY
    ensures !QuotientIsSafe(a, b) && RoundsQuotient(a, b, lo + 1) && MagnitudeOf(r) == lo
  {
    NormalizedMeans(a, b, MagnitudeOf(r));
    hide InBand, NormalizedQuotient, RoundsQuotient, NearQuotient, RoundsTo, Units, Grain, Spread, ValueNum, ValueDen;
    hide QuotientExponent, QuotientSignificand, Dividend, Divisor, LosesCarry, CARRIED;
    FieldsOf(a);
    FieldsOf(b);
    var e, q, m := QuotientExponent(a, b), QuotientSignificand(a, b), MagnitudeOf(r);
    assert TiesDown(q * Grain(e), Spread(e));
    UnsafeQuotient(a, b, m);
    QuotientBounds(a, b);
    ReadAsItIs(e, q);
    TieAbove(q * Grain(e), 8 * Spread(e), lo);
    TieBelow(q * Grain(e), 8 * Spread(e), lo);
    RoundedBetween(q * Grain(e), 8 * Spread(e), lo, lo);
    RoundingUnique(q * Grain(e), 8 * Spread(e), m, lo);
  }

  lemma TieBelow(n: nat, d: nat, lo: nat)
    requires d > 0 && 2 * n == Units(lo) * d + Units(lo + 1) * d
    ensures n < Units(lo + 1) * d
  {
    hide Units;
    UnitsStep(lo);
    ScaleMonotone(Units(lo), Units(lo + 1), d);
  }

  lemma TieOperands()
    ensures var ma: Word, mb: Word := 0x3fc0_0000, 0x3f80_0001;
      && ma == MagnitudeOf(ma) && mb == MagnitudeOf(mb) && 0 < ma < INFINITY && 0 < mb < INFINITY
      && QuotientExponent(ma, mb) == 113
      && QuotientSignificand(ma, mb) == 1649267245056 && Dividend(ma) % Divisor(mb) == 196608
  {
    var ma, mb := 0x3fc0_0000, 0x3f80_0001;
    assert Significand(ma) == 0xc0_0000 && Significand(mb) == 0x80_0001;
    MoreBits();
    hide Pow2;
    DoublingsUnique(0xc0_0000, 40);
  }

  lemma TieBits(w: nat)
    requires w == Pow2(112)
    ensures var lo := 126 * HIDDEN + 12582910;
      2 * (1649267245056 * w) == (Units(lo) + Units(lo + 1)) * (8 * 1)
  {
    hide Units, Pow2;
    var lo := 126 * HIDDEN + 12582910;
    MoreBits();
    Pow2Add(14, 112);
    UnitsOfParts(127, 12582910);
    UnitsOfParts(127, 12582911);
    assert lo + 1 == 126 * HIDDEN + 12582911;
    TieArithmetic(w, Pow2(126), Units(lo), Units(lo + 1));
  }

  lemma TieArithmetic(w: nat, p: nat, u: nat, v: nat)
    requires p == 0x4000 * w && u == 12582910 * p && v == 12582911 * p
    ensures 2 * (1649267245056 * w) == (u + v) * (8 * 1)
  {
  }
}
