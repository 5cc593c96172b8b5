/** `internal_float_add` and `internal_float_sub` (nemu/src/cpu/fpu.c) against the exact sum. */
module FloatAdd {
  import opened Powers
  import opened Binary32
  import opened GuardBits
  import opened Normalizer

  datatype CornerRule = CornerRule(a: Word, b: Word, res: Word)

  const CORNER_ADD: seq<CornerRule> := [
    CornerRule(P_ZERO, P_ZERO, P_ZERO),
    CornerRule(N_ZERO, P_ZERO, P_ZERO),
    CornerRule(P_ZERO, N_ZERO, P_ZERO),
    CornerRule(N_ZERO, N_ZERO, N_ZERO),
    CornerRule(P_INF, N_INF, N_NAN),
    CornerRule(N_INF, P_INF, N_NAN),
    CornerRule(P_INF, P_NAN, P_NAN),
    CornerRule(P_INF, N_NAN, N_NAN),
    CornerRule(N_INF, P_NAN, P_NAN),
    CornerRule(N_INF, N_NAN, N_NAN),
    CornerRule(N_NAN, P_NAN, P_NAN)
  ]

  const CORNER_SUB: seq<CornerRule> := [
    CornerRule(P_ZERO, P_ZERO, P_ZERO),
    CornerRule(N_ZERO, P_ZERO, N_ZERO),
    CornerRule(P_ZERO, N_ZERO, P_ZERO),
    CornerRule(N_ZERO, N_ZERO, P_ZERO),
    CornerRule(P_NAN, P_NAN, P_NAN),
    CornerRule(N_NAN, P_NAN, P_NAN),
    CornerRule(P_NAN, N_NAN, P_NAN),
    CornerRule(N_NAN, N_NAN, N_NAN)
  ]

  /** The first rule of a corner-case table that matches both operands. */
  method FindCorner(rules: seq<CornerRule>, a: Word, b: Word) returns (i: nat)
    ensures i <= |rules|
    ensures i < |rules| ==> rules[i].a == a && rules[i].b == b
    ensures forall k :: 0 <= k < i ==> !(rules[k].a == a && rules[k].b == b)
  {
    i := 0;
    while i < |rules|
      invariant i <= |rules|
      invariant forall k :: 0 <= k < i ==> !(rules[k].a == a && rules[k].b == b)
    {
      if a == rules[i].a && b == rules[i].b { return; }
      i := i + 1;
    }
  }

  function Abs(x: int): nat { if x < 0 then -x else x }

  /** r is a + b for operands that are not NaN: correctly rounded, with the sign rules of
      IEEE 754-2008 sections 6.1 and 6.3. */
  ghost predicate IsSum(a: Word, b: Word, r: Word) {
    if IsInfinite(a) && IsInfinite(b) then
      if SignOf(a) == SignOf(b) then r == a else IsNaN(r)
    else if IsInfinite(a) then r == a
    else if IsInfinite(b) then r == b
    else
      var s := SignedUnits(a) + SignedUnits(b);
      if s == 0 then r == if a == N_ZERO && b == N_ZERO then N_ZERO else P_ZERO
      else SignOf(r) == (if s < 0 then 1 else 0) && RoundsTo(Abs(s), 1, MagnitudeOf(r))
  }

  /** r is a - b for operands that are not NaN, likewise. */
  ghost predicate IsDifference(a: Word, b: Word, r: Word) {
    if IsInfinite(a) && IsInfinite(b) then
      if SignOf(a) == SignOf(b) then IsNaN(r) else r == a
    else if IsInfinite(a) then r == a
    else if IsInfinite(b) then IsInfinite(r) && SignOf(r) != SignOf(b)
    else
      var s := SignedUnits(a) - SignedUnits(b);
      if s == 0 then r == if a == N_ZERO && b == P_ZERO then N_ZERO else P_ZERO
      else SignOf(r) == (if s < 0 then 1 else 0) && RoundsTo(Abs(s), 1, MagnitudeOf(r))
  }

  function Negate(b: Word): Word {
    if SignOf(b) == 1 then b - 0x8000_0000 else b + 0x8000_0000
  }

  lemma NegateTurnsSign(b: Word)
    ensures SignOf(Negate(b)) == 1 - SignOf(b) && MagnitudeOf(Negate(b)) == MagnitudeOf(b)
    ensures SignedUnits(Negate(b)) == -SignedUnits(b)
  {
    hide Units;
  }

  lemma SumWithNegated(a: Word, b: Word, r: Word)
    requires IsSum(a, Negate(b), r)
    ensures IsDifference(a, b, r)
  {
    NegateTurnsSign(b);
    FieldsOf(b);
    hide SignedUnits, RoundsTo;
  }

  // ---------------------------------------------------------------- sticky bits stay invisible

  /** With three extra bits and at most one later left shift, rounding the sticky significand and
      rounding the exact value give the same magnitude. */
  lemma StickyIsInvisible(s: nat, e: int, sig: nat, m: nat)
    requires 1 <= e <= 254
    requires Jammed(8 * s, Pow2(e - 1), sig)
    requires sig < 4 * NORMAL
    requires sig % 2 == 1 ==> e >= 2 && 2 * sig >= NORMAL
    requires Normalized(sig * Pow2(e - 1), 1, m)
    ensures RoundsTo(s, 1, m)
  {
    hide Pow2, RoundsTo;
    if sig % 2 == 1 {
      OddIsAboveLostBand(e, sig);
      hide Jammed, LosesCarry;
      StickyRoundsAlike(8 * s, sig * Pow2(e - 1), e, sig, m);
    }
    RoundingOfEqualValues(8 * s, 8, s, 1, m);
  }

  lemma OddIsAboveLostBand(e: nat, sig: nat)
    requires e >= 2 && 2 * sig >= NORMAL && sig % 2 == 1
    ensures var g := 1 * Pow2(e - 1); !LosesCarry(sig * g, 1) && Jammed(sig * g, g, sig)
  {
    assert Pow2(e - 1) == 2 * Pow2(e - 2);
    hide Pow2;
    MulAssoc(sig, 2, Pow2(e - 2));
    ScaleMonotone(1, Pow2(e - 2), sig);
  }

  lemma StickyRoundsAlike(n: nat, n': nat, e: int, sig: nat, m: nat)
    requires 2 <= e <= 254
    requires Jammed(n, 1 * Pow2(e - 1), sig) && Jammed(n', 1 * Pow2(e - 1), sig)
    requires NORMAL <= 2 * sig < 8 * NORMAL && sig % 2 == 1
    requires RoundsTo(n', 8, m)
    ensures RoundsTo(n, 8, m)
  {
    hide Pow2, Jammed, Decides, RoundsTo, DropGuardBits;
    if sig >= CARRIED {
      CarriedRoundsAlike(n, n', e, sig, m);
    } else if sig >= NORMAL {
      SameGuardBits(n, n', e, sig, m);
    } else {
      DoubledRoundsAlike(n, n', e, sig, m);
    }
  }

  /** One more right shift. */
  lemma CarriedRoundsAlike(n: nat, n': nat, e: nat, sig: nat, m: nat)
    requires 2 <= e <= 254 && CARRIED <= sig < 4 * NORMAL
    requires Jammed(n, 1 * Pow2(e - 1), sig) && Jammed(n', 1 * Pow2(e - 1), sig)
    requires RoundsTo(n', 8, m)
    ensures RoundsTo(n, 8, m)
  {
    ShiftedJam(n, e, sig);
    ShiftedJam(n', e, sig);
    hide Pow2, Jammed, RoundsTo, JamShift;
    if e + 1 == 255 {
      TopExponentOverflows(n, 1, e + 1, JamShift(sig));
      TopExponentOverflows(n', 1, e + 1, JamShift(sig));
      RoundingUnique(n', 8, m, INFINITY);
    } else {
      SameGuardBits(n, n', e + 1, JamShift(sig), m);
    }
  }

  lemma ShiftedJam(n: nat, e: nat, sig: nat)
    requires 2 <= e && CARRIED <= sig < 4 * NORMAL && Jammed(n, 1 * Pow2(e - 1), sig)
    ensures Jammed(n, 1 * Pow2(e + 1 - 1), JamShift(sig)) && NORMAL <= JamShift(sig) < CARRIED
  {
    hide Pow2, Jammed;
    ShiftRightKeeps(n, 1, e, sig);
  }

  /** One left shift. */
  lemma DoubledRoundsAlike(n: nat, n': nat, e: nat, sig: nat, m: nat)
    requires 2 <= e <= 254 && NORMAL <= 2 * sig < CARRIED && sig % 2 == 1
    requires Jammed(n, 1 * Pow2(e - 1), sig) && Jammed(n', 1 * Pow2(e - 1), sig)
    requires RoundsTo(n', 8, m)
    ensures RoundsTo(n, 8, m)
  {
    hide Pow2, Jammed, Decides, RoundsTo, DropGuardBits;
    HalfGrain(n, e, sig);
    HalfGrain(n', e, sig);
    DropGuardBitsRounds(n, 1, e - 1, 2 * sig);
    DropGuardBitsRounds(n', 1, e - 1, 2 * sig);
    RoundingUnique(n', 8, m, (e - 2) * HIDDEN + DropGuardBits(2 * sig));
  }

  lemma HalfGrain(n: nat, e: nat, sig: nat)
    requires 2 <= e && sig % 2 == 1 && Jammed(n, 1 * Pow2(e - 1), sig)
    ensures Decides(n, 1 * Pow2(e - 1 - 1), 2 * sig)
  {
    assert Pow2(e - 1) == 2 * Pow2(e - 2);
    hide Pow2, Jammed, Decides;
    DoubledDecides(n, 1 * Pow2(e - 2), sig);
  }

  lemma SameGuardBits(n: nat, n': nat, e: int, sig: nat, m: nat)
    requires 1 <= e <= 254 && NORMAL <= sig < CARRIED
    requires Jammed(n, 1 * Pow2(e - 1), sig) && Jammed(n', 1 * Pow2(e - 1), sig)
    requires RoundsTo(n', 8, m)
    ensures RoundsTo(n, 8, m)
  {
    hide Pow2, Jammed, Decides, RoundsTo, DropGuardBits;
    JammedDecides(n, 1 * Pow2(e - 1), sig);
    JammedDecides(n', 1 * Pow2(e - 1), sig);
    DropGuardBitsRounds(n, 1, e, sig);
    DropGuardBitsRounds(n', 1, e, sig);
    RoundingUnique(n', 8, m, (e - 1) * HIDDEN + DropGuardBits(sig));
  }

  /** Shifting an odd (sticky) significand left once still decides every rounding: its guard bits
      become 010 or 110, never a tie. */
  lemma DoubledDecides(n: nat, g: nat, sig: nat)
    requires g > 0 && sig % 2 == 1 && Jammed(n, 2 * g, sig)
    ensures Decides(n, g, 2 * sig)
  {
    var q, r := sig / 4, sig % 4;
    assert 2 * sig / 8 == q && sig == 4 * q + r;
    SplitProduct(4 * q, r, 2 * g);
    MulAssoc(4, q, 2 * g);
    MulAssoc(2, q, g);
    assert r == 1 || r == 3;
  }

  // ---------------------------------------------------------------- alignment and signed sum

  predicate Multiple(y: nat, k: nat, g: nat) { y == k * g }

  lemma SignedSumIsJammed(x: nat, y: nat, g: nat, sx: nat, sy: nat, nx: bool, ny: bool)
    requires g > 0 && Jammed(x, g, sx) && Multiple(y, sy, g) && sy % 2 == 0
    ensures var s, t := Signed(nx, x) + Signed(ny, y), Signed(nx, sx) + Signed(ny, sy);
      && Jammed(Abs(s), g, Abs(t))
      && (s < 0 <==> t < 0) && (s == 0 <==> t == 0)
  {
    hide Jammed;
    if nx == ny {
      JammedPlus(x, y, g, sx, sy);
    } else if sx >= sy {
      JammedMinus(x, y, g, sx, sy);
    } else {
      JammedMinusBelow(x, y, g, sx, sy);
    }
  }

  lemma JammedPlus(x: nat, y: nat, g: nat, sx: nat, sy: nat)
    requires g > 0 && Jammed(x, g, sx) && y == sy * g && sy % 2 == 0
    ensures Jammed(x + y, g, sx + sy) && (x + y == 0 <==> sx + sy == 0)
  {
    hide Jammed, Within;
    JammedIs(x, g, sx, sx * g);
    SplitProduct(sx, sy, g);
    AtLeastGrain(sx, g);
    AtLeastGrain(sy, g);
    WithinPlus(x, y, g, sx, sy, sx * g);
    IsJammed(x + y, g, sx + sy, sx * g + sy * g);
  }

  lemma WithinPlus(x: nat, y: nat, g: nat, sx: nat, sy: nat, p: nat)
    requires Within(x, g, sx, p) && sy % 2 == 0 && (sy > 0 ==> y >= g > 0) && (sy == 0 ==> y == 0)
    requires (sx > 0 ==> p >= g > 0) && (sx == 0 ==> p == 0)
    ensures Within(x + y, g, sx + sy, p + y) && (x + y == 0 <==> sx + sy == 0)
  {
  }

  lemma JammedMinus(x: nat, y: nat, g: nat, sx: nat, sy: nat)
    requires g > 0 && Jammed(x, g, sx) && y == sy * g && sy % 2 == 0 && sx >= sy
    ensures x >= y && Jammed(x - y, g, sx - sy) && (x == y <==> sx == sy)
  {
    var t := sx - sy;
    assert sx == sy + t;
    hide Jammed, Within;
    JammedIs(x, g, sx, sx * g);
    SplitProduct(sy, t, g);
    AtLeastGrain(t, g);
    WithinMinus(x, y, g, sx, sy, sx * g);
    IsJammed(x - y, g, t, t * g);
  }

  lemma WithinMinus(x: nat, y: nat, g: nat, sx: nat, sy: nat, p: nat)
    requires Within(x, g, sx, p) && sy % 2 == 0 && sx >= sy
    requires (sx > sy ==> p >= y + g && g > 0) && (sx == sy ==> p == y)
    ensures x >= y && Within(x - y, g, sx - sy, p - y) && (x == y <==> sx == sy)
  {
  }

  lemma JammedMinusBelow(x: nat, y: nat, g: nat, sx: nat, sy: nat)
    requires g > 0 && Jammed(x, g, sx) && y == sy * g && sy % 2 == 0 && sx < sy
    ensures x < y && Jammed(y - x, g, sy - sx)
  {
    var t := sy - sx;
    assert sy == sx + t;
    hide Jammed, Within;
    JammedIs(x, g, sx, sx * g);
    SplitProduct(sx, t, g);
    AtLeastGrain(t, g);
    WithinMinusBelow(x, y, g, sx, sy, sx * g);
    IsJammed(y - x, g, t, t * g);
  }

  lemma WithinMinusBelow(x: nat, y: nat, g: nat, sx: nat, sy: nat, p: nat)
    requires Within(x, g, sx, p) && sy % 2 == 0 && sx < sy && y >= p + g && g > 0
    ensures x < y && Within(y - x, g, sy - sx, y - p)
  {
  }

  lemma AtLeastGrain(u: nat, g: nat)
    requires g > 0
    ensures u == 0 ==> u * g == 0
    ensures u > 0 ==> u * g >= g
  {
  }

  /** Negation and addition of the source's unsigned 32-bit integers. */
  function Neg32(x: Word): Word { if x == 0 then 0 else 0x1_0000_0000 - x }
  function Add32(x: Word, y: Word): Word { if x + y < 0x1_0000_0000 then x + y else x + y - 0x1_0000_0000 }

  lemma TwosComplementSum(x: Word, y: Word, nx: bool, ny: bool)
    requires x < 0x1000_0000 && y < 0x1000_0000
    ensures var t := Signed(nx, x) + Signed(ny, y);
      var w := Add32(if nx then Neg32(x) else x, if ny then Neg32(y) else y);
      && (w >= 0x8000_0000 <==> t < 0)
      && Abs(t) == if w >= 0x8000_0000 then Neg32(w) else w
  {
  }

  /** k sticky right shifts. */
  function JamBy(sig: nat, k: nat): (r: nat)
    ensures r <= sig
  {
    if k == 0 then sig else JamBy(JamShift(sig), k - 1)
  }

  lemma {:induction false} JamByKeeps(x: nat, e: nat, sig: nat, k: nat)
    requires e >= 1 && Jammed(x, Pow2(e - 1), sig)
    ensures Jammed(x, Pow2(e + k - 1), JamBy(sig, k))
    decreases k
  {
    if k > 0 {
      assert Pow2(e) == 2 * Pow2(e - 1);
      hide Pow2, Jammed, JamShift;
      JamShiftKeeps(x, Pow2(e - 1), sig);
      JamByKeeps(x, e + 1, JamShift(sig), k - 1);
    }
  }

  /** Three guard bits hold two shifts exactly; more shifts leave a small significand. */
  lemma JamByThree(sig: nat, k: nat)
    ensures k <= 2 ==> JamBy(8 * sig, k) % 2 == 0
    ensures k >= 3 ==> JamBy(8 * sig, k) <= sig
  {
    assert JamShift(8 * sig) == 4 * sig && JamShift(4 * sig) == 2 * sig && JamShift(2 * sig) == sig;
    if k >= 1 { assert JamBy(8 * sig, k) == JamBy(4 * sig, k - 1); }
    if k >= 2 { assert JamBy(4 * sig, k - 1) == JamBy(2 * sig, k - 2); }
    if k >= 3 { assert JamBy(2 * sig, k - 2) == JamBy(sig, k - 3); }
  }

  /** The alignment loop: shift right, keeping everything shifted out in the sticky bit. */
  method Align(sigA: Word, shift: nat) returns (sig: Word)
    ensures sig == JamBy(sigA, shift)
  {
    sig := sigA;
    var left: nat, sticky: nat := shift, 0;
    while left > 0
      invariant sticky < 2 && (sticky == 1 ==> sig % 2 == 1)
      invariant JamBy(sig, left) == JamBy(sigA, shift)
      decreases left
    {
      ghost var shifted := JamShift(sig);
      sticky := OrBit(sig % 2, sticky) % 2;
      sig := sig / 2;
      sig := OrBit(sig, sticky);
      left := left - 1;
      assert sig == shifted;
    }
  }

  /** The significand of the smaller magnitude after alignment, with three guard bits. */
  function AlignedSignificand(ma: nat, mb: nat): nat
    requires EffectiveExponent(ma) <= EffectiveExponent(mb)
  {
    JamBy(8 * Significand(ma), EffectiveExponent(mb) - EffectiveExponent(ma))
  }

  /** The signed sum the source forms in two's complement. */
  function GuardedSum(ma: nat, mb: nat, na: bool, nb: bool): int
    requires EffectiveExponent(ma) <= EffectiveExponent(mb)
  {
    Signed(na, AlignedSignificand(ma, mb)) + Signed(nb, 8 * Significand(mb))
  }

  lemma GuardedSumIsJammed(ma: nat, mb: nat, na: bool, nb: bool)
    requires EffectiveExponent(ma) <= EffectiveExponent(mb)
    ensures var s, t := Signed(na, Units(ma)) + Signed(nb, Units(mb)), GuardedSum(ma, mb, na, nb);
      && Jammed(8 * Abs(s), Pow2(EffectiveExponent(mb) - 1), Abs(t))
      && (s < 0 <==> t < 0) && (s == 0 <==> t == 0)
  {
    hide Pow2, Units, JamBy, Jammed, Significand, EffectiveExponent, Signed, Abs, Multiple;
    var ea, eb := EffectiveExponent(ma), EffectiveExponent(mb);
    AlignedIsJammed(ma, ea, Significand(ma), eb - ea);
    EightTimesUnits(mb);
    assert ea + (eb - ea) - 1 == eb - 1;
    ScaledSumIsJammed(Units(ma), Units(mb), Pow2(eb - 1), AlignedSignificand(ma, mb), Significand(mb), na, nb);
  }

  lemma ScaledSumIsJammed(u: nat, v: nat, g: nat, sx: nat, sv: nat, na: bool, nb: bool)
    requires g > 0 && Jammed(8 * u, g, sx) && Multiple(8 * v, 8 * sv, g)
    ensures var s, t := Signed(na, u) + Signed(nb, v), Signed(na, sx) + Signed(nb, 8 * sv);
      && Jammed(8 * Abs(s), g, Abs(t))
      && (s < 0 <==> t < 0) && (s == 0 <==> t == 0)
  {
    hide *;
    var x, y, sy := 8 * u, 8 * v, 8 * sv;
    assert sy % 2 == 0;
    SignedSumIsJammed(x, y, g, sx, sy, na, nb);
    SignedScales(na, nb, u, v);
  }

  lemma EightTimesUnits(m: nat)
    ensures Multiple(8 * Units(m), 8 * Significand(m), Pow2(EffectiveExponent(m) - 1))
  {
  }

  lemma AlignedIsJammed(m: nat, e: nat, s: nat, k: nat)
    requires e == EffectiveExponent(m) && s == Significand(m)
    ensures Jammed(8 * Units(m), Pow2(e + k - 1), JamBy(8 * s, k))
  {
    EightTimesUnits(m);
    hide Pow2, Units;
    JamByKeeps(8 * Units(m), e, 8 * s, k);
  }

  lemma SignedScales(p: bool, q: bool, u: nat, v: nat)
    ensures Signed(p, 8 * u) + Signed(q, 8 * v) == 8 * (Signed(p, u) + Signed(q, v))
    ensures Abs(Signed(p, 8 * u) + Signed(q, 8 * v)) == 8 * Abs(Signed(p, u) + Signed(q, v))
  {
  }

  /** The bounds that keep the sum inside 32 bits and an odd (inexact) sum large. */
  lemma GuardedSumBounds(ma: nat, mb: nat, na: bool, nb: bool)
    requires ma / HIDDEN <= mb / HIDDEN
    ensures var t := Abs(GuardedSum(ma, mb, na, nb));
      && AlignedSignificand(ma, mb) < CARRIED && 8 * Significand(mb) < CARRIED
      && t < 4 * NORMAL
      && (mb / HIDDEN == 0 ==> t < CARRIED)
      && (t % 2 == 1 ==> EffectiveExponent(mb) >= 2 && 2 * t >= NORMAL)
  {
    hide JamBy, Significand, EffectiveExponent, Signed, Abs;
    SignificandRange(ma);
    SignificandRange(mb);
    var k := EffectiveExponent(mb) - EffectiveExponent(ma);
    JamByThree(Significand(ma), k);
    SumBounds(AlignedSignificand(ma, mb), Significand(mb), na, nb, k);
  }

  lemma SignificandRange(m: nat)
    ensures Significand(m) < 2 * HIDDEN
    ensures m / HIDDEN == 0 ==> Significand(m) < HIDDEN && EffectiveExponent(m) == 1
    ensures m / HIDDEN != 0 ==> Significand(m) >= HIDDEN && EffectiveExponent(m) == m / HIDDEN
  {
  }

  lemma SumBounds(x: nat, y: nat, na: bool, nb: bool, k: nat)
    requires x < CARRIED && y < 2 * HIDDEN
    requires (k <= 2 ==> x % 2 == 0) && (k >= 3 ==> x < 2 * HIDDEN && y >= HIDDEN)
    ensures var t := Abs(Signed(na, x) + Signed(nb, 8 * y));
      && t < 4 * NORMAL
      && (x < NORMAL && y < HIDDEN ==> t < CARRIED)
      && (t % 2 == 1 ==> k >= 3 && 2 * t >= NORMAL)
  {
    var h, b := x / 2, x % 2;
    Parity(h + 4 * y, b);
    Parity(h - 4 * y, b);
    Parity(4 * y - h - b, b);
  }

  lemma Parity(c: int, b: int)
    requires 0 <= b < 2
    ensures (2 * c + b) % 2 == b
  {
  }

  lemma GuardedSumRounds(ma: nat, mb: nat, na: bool, nb: bool, m: nat)
    requires ma / HIDDEN <= mb / HIDDEN < 255
    requires var t := Abs(GuardedSum(ma, mb, na, nb));
      Normalized(ValueNum(mb / HIDDEN, t), ValueDen(mb / HIDDEN, t), m)
    ensures RoundsTo(Abs(Signed(na, Units(ma)) + Signed(nb, Units(mb))), 1, m)
  {
    hide Pow2, Units, Jammed, RoundsTo, Normalized, GuardedSum, ValueNum, ValueDen, Significand;
    var t := Abs(GuardedSum(ma, mb, na, nb));
    GuardedSumBounds(ma, mb, na, nb);
    GuardedSumIsJammed(ma, mb, na, nb);
    ReadOnOwnScale(mb, t);
    StickyIsInvisible(Abs(Signed(na, Units(ma)) + Signed(nb, Units(mb))), EffectiveExponent(mb), t, m);
  }

  lemma ReadOnOwnScale(mb: nat, t: nat)
    requires mb / HIDDEN < 255 && (mb / HIDDEN == 0 ==> t < CARRIED)
    ensures var e := EffectiveExponent(mb);
      && 1 <= e <= 254
      && ValueNum(mb / HIDDEN, t) == t * Pow2(e - 1) && ValueDen(mb / HIDDEN, t) == 1
  {
  }

  lemma ZeroRoundsToZero(m: nat)
    requires RoundsTo(0, 1, m)
    ensures m == 0
  {
    UnitsOfParts(1, 0);
    RepresentableIsExact(0, 1, 0, m);
  }

  /** The general path: both operands finite and not zero. */
  method AddFinite(b: Word, a: Word) returns (r: Word)
    requires IsFinite(a) && IsFinite(b) && !IsZero(a) && !IsZero(b)
    ensures IsSum(a, b, r)
  {
    var fa, fb := a, b;
    if ExponentOf(fa) > ExponentOf(fb) {
      fa, fb := b, a;
    }
    hide Units, Pow2, RoundsTo, Normalized, IsSum, ValueNum, ValueDen, Jammed, JamBy;
    ghost var ma, mb, na, nb := MagnitudeOf(fa), MagnitudeOf(fb), SignOf(fa) == 1, SignOf(fb) == 1;
    var sigA := GuardedSignificand(fa);
    var sigB := GuardedSignificand(fb);
    var shift := AlignmentShift(fa, fb);
    sigA := Align(sigA, shift);
    GuardedSumBounds(ma, mb, na, nb);
    assert sigA == AlignedSignificand(ma, mb);
    var sign, sigRes := SignedAdd(sigA, sigB, SignOf(fa) == 1, SignOf(fb) == 1);
    ghost var t := GuardedSum(ma, mb, na, nb);
    assert sigRes == Abs(t) && sign == if t < 0 then 1 else 0;
    r := InternalNormalize(sign, ExponentOf(fb), sigRes);
    GuardedSumRounds(ma, mb, na, nb, MagnitudeOf(r));
    GuardedSumIsJammed(ma, mb, na, nb);
    RoundedSumIsSum(a, b, fa, fb, r);
  }

  /** The fraction with its hidden bit, shifted to make room for guard, round and sticky. */
  method GuardedSignificand(f: Word) returns (sig: Word)
    ensures sig == 8 * Significand(MagnitudeOf(f)) < CARRIED
  {
    FieldsOf(f);
    sig := FractionOf(f);
    if ExponentOf(f) != 0 { sig := sig + HIDDEN; }
    sig := sig * 8;
  }

  /** How far the operand with the smaller exponent has to move. */
  method AlignmentShift(fa: Word, fb: Word) returns (shift: nat)
    requires ExponentOf(fa) <= ExponentOf(fb)
    ensures shift == EffectiveExponent(MagnitudeOf(fb)) - EffectiveExponent(MagnitudeOf(fa))
    ensures MagnitudeOf(fa) / HIDDEN <= MagnitudeOf(fb) / HIDDEN == ExponentOf(fb)
  {
    FieldsOf(fa);
    FieldsOf(fb);
    if ExponentOf(fa) != 0 {
      shift := ExponentOf(fb) - ExponentOf(fa);
    } else if ExponentOf(fb) == 0 {
      shift := 0;
    } else {
      shift := ExponentOf(fb) - 1;
    }
  }

  /** The addition of signed significands, done in wrapping 32-bit arithmetic. */
  method SignedAdd(sigA: Word, sigB: Word, negA: bool, negB: bool) returns (sign: Word, sigRes: Word)
    requires sigA < 0x1000_0000 && sigB < 0x1000_0000
    ensures var t := Signed(negA, sigA) + Signed(negB, sigB);
      sigRes == Abs(t) && sign == if t < 0 then 1 else 0
  {
    TwosComplementSum(sigA, sigB, negA, negB);
    var x, y := sigA, sigB;
    if negA { x := Neg32(x); }
    if negB { y := Neg32(y); }
    sigRes := Add32(x, y);
    if sigRes >= 0x8000_0000 {
      sign := 1;
      sigRes := Neg32(sigRes);
    } else {
      sign := 0;
    }
  }

  lemma RoundedSumIsSum(a: Word, b: Word, fa: Word, fb: Word, r: Word)
    requires IsFinite(a) && IsFinite(b) && !IsZero(a) && !IsZero(b)
    requires (fa == a && fb == b) || (fa == b && fb == a)
    requires var s := SignedUnits(fa) + SignedUnits(fb);
      RoundsTo(Abs(s), 1, MagnitudeOf(r)) && SignOf(r) == if s < 0 then 1 else 0
    ensures IsSum(a, b, r)
  {
    FieldsOf(a);
    FieldsOf(b);
    FieldsOf(r);
    hide RoundsTo, SignedUnits;
    if SignedUnits(fa) + SignedUnits(fb) == 0 { ZeroRoundsToZero(MagnitudeOf(r)); }
  }

  lemma SumWithZero(z: Word, x: Word)
    requires IsZero(z) && !IsZero(x) && !IsNaN(x)
    ensures IsSum(z, x, x) && IsSum(x, z, x)
  {
    FieldsOf(z);
    FieldsOf(x);
    UnitsOfParts(1, 0);
    UnitsMonotone(0, MagnitudeOf(x));
    if IsFinite(x) { RepresentableIsExact(Units(MagnitudeOf(x)), 1, MagnitudeOf(x), MagnitudeOf(x)); }
  }

  lemma ZeroSums(a: Word, b: Word)
    requires IsZero(a) && IsZero(b)
    ensures IsSum(a, b, if a == N_ZERO && b == N_ZERO then N_ZERO else P_ZERO)
  {
    UnitsOfParts(1, 0);
  }

  /** a + b, correctly rounded for all operands that are not NaN. */
  method InternalFloatAdd(b: Word, a: Word) returns (r: Word)
    ensures !IsNaN(a) && !IsNaN(b) ==> IsSum(a, b, r)
  {
    hide RoundsTo, SignedUnits;
    FieldsOf(a);
    FieldsOf(b);
    var i := FindCorner(CORNER_ADD, a, b);
    if i < |CORNER_ADD| {
      if IsZero(a) && IsZero(b) { ZeroSums(a, b); }
      return CORNER_ADD[i].res;
    }
    assert CORNER_ADD[0].a == P_ZERO && CORNER_ADD[1].a == N_ZERO;
    assert CORNER_ADD[2].b == N_ZERO && CORNER_ADD[3].b == N_ZERO;
    assert CORNER_ADD[4].a == P_INF && CORNER_ADD[5].a == N_INF;
    if a == P_ZERO || a == N_ZERO {
      if !IsNaN(b) { SumWithZero(a, b); }
      return b;
    }
    if b == P_ZERO || b == N_ZERO {
      if !IsNaN(a) { SumWithZero(b, a); }
      return a;
    }
    if ExponentOf(a) == 0xff { return a; }
    if ExponentOf(b) == 0xff { return b; }
    r := AddFinite(b, a);
  }

  lemma ZeroDifferences(a: Word, b: Word)
    requires IsZero(a) && IsZero(b)
    ensures IsDifference(a, b, if a == N_ZERO && b == P_ZERO then N_ZERO else P_ZERO)
  {
    UnitsOfParts(1, 0);
  }

  /** a - b, correctly rounded for all operands that are not NaN. */
  method InternalFloatSub(b: Word, a: Word) returns (r: Word)
    ensures !IsNaN(a) && !IsNaN(b) ==> IsDifference(a, b, r)
  {
    hide RoundsTo, SignedUnits, IsSum;
    NegateTurnsSign(b);
    FieldsOf(b);
    var i := FindCorner(CORNER_SUB, a, b);
    if i < |CORNER_SUB| {
      if IsZero(a) && IsZero(b) { ZeroDifferences(a, b); }
      return CORNER_SUB[i].res;
    }
    if a == P_NAN || a == N_NAN { return a; }
    if b == P_NAN || b == N_NAN { return b; }
    r := InternalFloatAdd(Negate(b), a);
    if !IsNaN(a) && !IsNaN(b) { SumWithNegated(a, b, r); }
  }
}
