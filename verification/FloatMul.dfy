/** `internal_float_mul` (nemu/src/cpu/fpu.c): when its result is the correctly rounded product. */
module FloatMul {
  import opened Powers
  import opened Binary32
  import opened GuardBits
  import opened Normalizer
  import FloatAdd

  const CORNER_MUL: seq<FloatAdd.CornerRule> := [
    FloatAdd.CornerRule(P_ZERO, P_INF, N_NAN),
    FloatAdd.CornerRule(P_ZERO, N_INF, N_NAN),
    FloatAdd.CornerRule(N_ZERO, P_INF, N_NAN),
    FloatAdd.CornerRule(N_ZERO, N_INF, N_NAN),
    FloatAdd.CornerRule(P_INF, P_ZERO, N_NAN),
    FloatAdd.CornerRule(P_INF, N_ZERO, N_NAN),
    FloatAdd.CornerRule(N_INF, P_ZERO, N_NAN),
    FloatAdd.CornerRule(N_INF, N_ZERO, N_NAN)
  ]

  function SignXor(a: Word, b: Word): nat { if SignOf(a) == SignOf(b) then 0 else 1 }

  /** The exponent and significand handed to the normaliser. */
  function ProductExponent(ma: nat, mb: nat): int { EffectiveExponent(ma) - 127 + EffectiveExponent(mb) - 20 }
  function ProductSignificand(ma: nat, mb: nat): nat { Significand(ma) * Significand(mb) }

  /** The exact product is in the band whose carry is lost. */
  predicate ProductCarries(ma: nat, mb: nat) {
    LosesCarry(8 * Times(Units(ma), Units(mb)), Pow2(149))
  }

  /** The exact product is Units(ma) * Units(mb) / 2^149 units. The source rounds it correctly except
      in two bands below 2^-126: when the exponent handed over is 0 with a short significand (read on
      the wrong scale), and where rounding up would carry into the normal range. */
  predicate ProductIsSafe(ma: nat, mb: nat) {
    && !(ProductExponent(ma, mb) == 0 && ProductSignificand(ma, mb) < CARRIED)
    && !ProductCarries(ma, mb)
  }

  lemma NormalizedIsRoundingIff(n: nat, d: nat, m: nat)
    requires d > 0 && Normalized(n, d, m)
    ensures RoundsTo(n, 8 * d, m) <==> !LosesCarry(n, d)
  {
    hide RoundsTo;
    if LosesCarry(n, d) {
      AboveBandIsNotZero(n, d);
    }
  }

  lemma LosesCarryScales(n: nat, d: nat, n': nat, d': nat)
    requires d > 0 && d' > 0 && n * d' == n' * d
    ensures LosesCarry(n, d) <==> LosesCarry(n', d')
  {
    BoundScales(NORMAL - 4, n, d, n', d');
    BoundScales(NORMAL, n, d, n', d');
  }

  lemma BoundScales(c: nat, n: nat, d: nat, n': nat, d': nat)
    requires d > 0 && d' > 0 && n * d' == n' * d
    ensures c * d <= n <==> c * d' <= n'
  {
    ScaleMonotone(c * d, n, d');
    ScaleMonotone(n, c * d, d');
    ScaleMonotone(c * d', n', d);
    ScaleMonotone(n', c * d', d);
    assert c * d * d' == c * d' * d;
  }

  lemma ProductUnits(ma: nat, mb: nat)
    ensures 8 * (Units(ma) * Units(mb)) ==
      ProductSignificand(ma, mb) * Pow2(EffectiveExponent(ma) + EffectiveExponent(mb) + 1)
  {
    var sa, sb, ea, eb := Significand(ma), Significand(mb), EffectiveExponent(ma), EffectiveExponent(mb);
    assert Pow2(3) == 8;
    hide Pow2, Significand, EffectiveExponent;
    ScaledProduct(sa, ea - 1, sb, eb - 1);
    assert ea - 1 + (eb - 1) == ea + eb - 2;
    ScaledTwice(sa * sb, ea + eb - 2, 3);
  }

  /** What the normaliser reads is the exact product, unless the exponent 0 is misread. */
  lemma ProductValue(ma: nat, mb: nat)
    requires var e, p := ProductExponent(ma, mb), ProductSignificand(ma, mb); !(e == 0 && p < CARRIED)
    ensures var e, p := ProductExponent(ma, mb), ProductSignificand(ma, mb);
      ValueNum(e, p) * Pow2(149) == 8 * (Units(ma) * Units(mb)) * ValueDen(e, p)
  {
    var e, p := ProductExponent(ma, mb), ProductSignificand(ma, mb);
    var s := EffectiveExponent(ma) + EffectiveExponent(mb) + 1;
    ProductUnits(ma, mb);
    hide Pow2, Units, ProductSignificand;
    if e >= 1 {
      ScaledTwice(p, e - 1, 149);
    } else {
      ScaledTwice(p, s, 1 - e);
    }
  }

  /** A short significand at exponent 0 is read at twice its value, and that always shows. */
  lemma MisreadProduct(p: nat, m: nat)
    requires HIDDEN <= p < CARRIED && Normalized(p, 1, m)
    ensures !RoundsTo(p, 16, m)
  {
    hide RoundsTo, Pow2, Units;
    JamShiftKeeps(p, 1, p);
    var h := JamShift(p);
    SubnormalRounding(p, 2, h);
    if RoundsTo(p, 16, m) {
      RoundingUnique(p, 16, m, DropGuardBits(h));
      if !LosesCarry(p, 1) {
        SubnormalOrFirstRounding(p);
        RoundingUnique(p, 8, m, DropGuardBits(p));
      }
    }
  }

  lemma SubnormalRounding(n: nat, d: nat, sig: nat)
    requires d > 0 && Jammed(n, d, sig) && sig < NORMAL
    ensures RoundsTo(n, 8 * d, DropGuardBits(sig))
  {
    assert d * Pow2(0) == d;
    hide Pow2, Jammed, Decides, RoundsTo;
    JammedDecides(n, d, sig);
    DropGuardBitsRounds(n, d, 1, sig);
  }

  lemma SubnormalOrFirstRounding(p: nat)
    requires p < CARRIED
    ensures RoundsTo(p, 8, DropGuardBits(p))
  {
    assert 1 * Pow2(0) == 1;
    hide Pow2, RoundsTo, Decides;
    JammedDecides(p, 1, p);
    DropGuardBitsRounds(p, 1, 1, p);
  }

  lemma ProductOfNormalIsLarge(ma: nat, mb: nat)
    requires ma > 0 && mb > 0
    requires ProductExponent(ma, mb) == 0
    ensures ProductSignificand(ma, mb) >= HIDDEN
  {
    var sa, sb := Significand(ma), Significand(mb);
    assert sa >= 1 && sb >= 1;
    if sa >= HIDDEN {
      ScaleMonotone(1, sb, sa);
    } else {
      ScaleMonotone(1, sa, sb);
    }
  }

  /** What the normaliser makes of the product. */
  ghost predicate NormalizedProduct(ma: nat, mb: nat, m: nat) {
    var e, p := ProductExponent(ma, mb), ProductSignificand(ma, mb);
    Normalized(ValueNum(e, p), ValueDen(e, p), m)
  }

  /** The correctly rounded product. */
  ghost predicate RoundsProduct(ma: nat, mb: nat, m: nat) {
    RoundsTo(Times(Units(ma), Units(mb)), Pow2(149), m)
  }

  lemma ProductRoundsIff(ma: nat, mb: nat, m: nat)
    requires ma > 0 && mb > 0 && NormalizedProduct(ma, mb, m)
    ensures RoundsProduct(ma, mb, m) <==> ProductIsSafe(ma, mb)
  {
    hide Pow2, Units, RoundsTo, Normalized, LosesCarry, ProductSignificand, ValueNum, ValueDen;
    var e, p := ProductExponent(ma, mb), ProductSignificand(ma, mb);
    if e == 0 && p < CARRIED {
      ProductOfNormalIsLarge(ma, mb);
      ReadAtZero(p);
      MisreadProduct(p, m);
      MisreadValue(ma, mb);
      RoundingOfEqualValues(Units(ma) * Units(mb), Pow2(149), p, 16, m);
    } else {
      ProductValue(ma, mb);
      SafeIff(Units(ma) * Units(mb), ValueNum(e, p), ValueDen(e, p), m);
    }
  }

  /** What is returned in the band: zero, where the rounded product is 2^-126. */
  lemma LostProduct(ma: nat, mb: nat, m: nat)
    requires NormalizedProduct(ma, mb, m) && ProductCarries(ma, mb)
    requires !(ProductExponent(ma, mb) == 0 && ProductSignificand(ma, mb) < CARRIED)
    ensures m == 0 && RoundsProduct(ma, mb, HIDDEN)
  {
    hide Pow2, Units, RoundsTo, LosesCarry, ProductSignificand, ProductExponent, ValueNum, ValueDen;
    var e, p, x := ProductExponent(ma, mb), ProductSignificand(ma, mb), Units(ma) * Units(mb);
    ProductValue(ma, mb);
    LosesCarryScales(ValueNum(e, p), ValueDen(e, p), 8 * x, Pow2(149));
    BandRounds(8 * x, Pow2(149));
    MulAssoc(x, 8, Pow2(149));
    RoundingOfEqualValues(x, Pow2(149), 8 * x, 8 * Pow2(149), HIDDEN);
  }

  lemma ReadAtZero(p: nat)
    requires p < CARRIED
    ensures ValueNum(0, p) == p && ValueDen(0, p) == 1
  {
    assert Pow2(0) == 1;
  }

  lemma MisreadValue(ma: nat, mb: nat)
    requires ProductExponent(ma, mb) == 0
    ensures Units(ma) * Units(mb) * 16 == ProductSignificand(ma, mb) * Pow2(149)
  {
    hide Pow2, Units, ProductSignificand;
    Pow2Step(148);
    ProductUnits(ma, mb);
    MulAssoc(ProductSignificand(ma, mb), 2, Pow2(148));
  }

  lemma SafeIff(x: nat, n: nat, d: nat, m: nat)
    requires d > 0 && n * Pow2(149) == 8 * x * d && Normalized(n, d, m)
    ensures RoundsTo(x, Pow2(149), m) <==> !LosesCarry(8 * x, Pow2(149))
  {
    hide Pow2, RoundsTo, Normalized, LosesCarry;
    NormalizedIsRoundingIff(n, d, m);
    LosesCarryScales(n, d, 8 * x, Pow2(149));
    MulAssoc(8, x, d);
    RoundingOfEqualValues(n, 8 * d, x, Pow2(149), m);
  }

  /** Everything the source's product promises for operands that are not NaN. */
  ghost predicate IsProduct(a: Word, b: Word, r: Word) {
    if (IsInfinite(a) && IsZero(b)) || (IsZero(a) && IsInfinite(b)) then IsNaN(r)
    else
      && (SignOf(r) == 1 <==> SignOf(a) != SignOf(b))
      && if IsInfinite(a) || IsInfinite(b) then IsInfinite(r)
         else if IsZero(a) || IsZero(b) then IsZero(r)
         else
           var ma, mb := MagnitudeOf(a), MagnitudeOf(b);
           && NormalizedProduct(ma, mb, MagnitudeOf(r))
           && (RoundsProduct(ma, mb, MagnitudeOf(r)) <==> ProductIsSafe(ma, mb))
  }

  /** The general path. (A NaN with another payload than the two the source knows gets here, too.) */
  method MulGeneral(b: Word, a: Word) returns (r: Word)
    ensures IsFinite(a) && IsFinite(b) && !IsZero(a) && !IsZero(b) ==> IsProduct(a, b, r)
  {
    hide Normalized, ValueNum, ValueDen, RoundsTo, IsProduct;
    var sigA, expA := Unpack(a);
    var sigB, expB := Unpack(b);
    var sigRes := sigA * sigB;
    ProductFits(sigA, sigB);
    var expRes := expA - 127 + expB - 20;
    ghost var n, d := ValueNum(expRes, sigRes), ValueDen(expRes, sigRes);
    r := InternalNormalize(SignXor(a, b), expRes, sigRes);
    assert Normalized(n, d, MagnitudeOf(r));
    if IsFinite(a) && IsFinite(b) && !IsZero(a) && !IsZero(b) {
      GeneralIsProduct(a, b, r);
    }
  }

  /** The significand with its hidden bit and the exponent a subnormal really has. */
  method Unpack(f: Word) returns (sig: nat, exp: int)
    ensures sig == Significand(MagnitudeOf(f)) < 2 * HIDDEN
    ensures exp == EffectiveExponent(MagnitudeOf(f)) <= 255
  {
    FieldsOf(f);
    sig := FractionOf(f);
    if ExponentOf(f) != 0 { sig := sig + HIDDEN; }
    exp := ExponentOf(f);
    if exp == 0 { exp := exp + 1; }
  }

  lemma ProductFits(x: nat, y: nat)
    requires x < 2 * HIDDEN && y < 2 * HIDDEN
    ensures x * y < 0x1_0000_0000_0000
  {
    assert x * y <= x * (2 * HIDDEN);
  }

  lemma GeneralIsProduct(a: Word, b: Word, r: Word)
    requires IsFinite(a) && IsFinite(b) && !IsZero(a) && !IsZero(b)
    requires SignOf(r) == SignXor(a, b)
    requires NormalizedProduct(MagnitudeOf(a), MagnitudeOf(b), MagnitudeOf(r))
    ensures IsProduct(a, b, r)
  {
    FieldsOf(a);
    FieldsOf(b);
    hide NormalizedProduct, RoundsProduct, ProductIsSafe;
    ProductRoundsIff(MagnitudeOf(a), MagnitudeOf(b), MagnitudeOf(r));
  }

  method InternalFloatMul(b: Word, a: Word) returns (r: Word)
    ensures !IsNaN(a) && !IsNaN(b) ==> IsProduct(a, b, r)
  {
    hide NormalizedProduct, RoundsProduct, ProductIsSafe;
    FieldsOf(a);
    FieldsOf(b);
    var i := FloatAdd.FindCorner(CORNER_MUL, a, b);
    if i < |CORNER_MUL| {
      return CORNER_MUL[i].res;
    }
    assert forall k :: 0 <= k < 8 ==> !(CORNER_MUL[k].a == a && CORNER_MUL[k].b == b);
    assert !((IsInfinite(a) && IsZero(b)) || (IsZero(a) && IsInfinite(b))) by {
      assert !(CORNER_MUL[0].a == a && CORNER_MUL[0].b == b) && !(CORNER_MUL[1].a == a && CORNER_MUL[1].b == b);
      assert !(CORNER_MUL[2].a == a && CORNER_MUL[2].b == b) && !(CORNER_MUL[3].a == a && CORNER_MUL[3].b == b);
      assert !(CORNER_MUL[4].a == a && CORNER_MUL[4].b == b) && !(CORNER_MUL[5].a == a && CORNER_MUL[5].b == b);
      assert !(CORNER_MUL[6].a == a && CORNER_MUL[6].b == b) && !(CORNER_MUL[7].a == a && CORNER_MUL[7].b == b);
    }
    if a == P_NAN || a == N_NAN || b == P_NAN || b == N_NAN {
      return if a == P_NAN || b == P_NAN then P_NAN else N_NAN;
    }
    if a == P_ZERO || a == N_ZERO { return if SignXor(a, b) == 1 then N_ZERO else P_ZERO; }
    if b == P_ZERO || b == N_ZERO { return if SignXor(a, b) == 1 then N_ZERO else P_ZERO; }
    if a == P_INF || a == N_INF { return if SignXor(a, b) == 1 then N_INF else P_INF; }
    if b == P_INF || b == N_INF { return if SignXor(a, b) == 1 then N_INF else P_INF; }
    r := MulGeneral(b, a);
  }
}
