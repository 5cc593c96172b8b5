/**
 `internal_normalize` (nemu/src/cpu/fpu.c): brings a 64-bit significand with three guard bits and
 an arbitrary exponent into binary32, rounding to nearest even. Its arguments stand for the value
 sig * 2^(exp - 153); exponent 0 with a short significand is read on the subnormal scale instead.
 */
module Normalizer {
  import opened Powers
  import opened Binary32
  import opened GuardBits

  function ReadExponent(exp: int, sig: nat): int {
    if exp == 0 && sig < CARRIED then 1 else exp
  }

  /** The value of the arguments, as a fraction of eighths of a unit. */
  function ValueNum(exp: int, sig: nat): nat {
    var e := ReadExponent(exp, sig);
    if e >= 1 then sig * Pow2(e - 1) else sig
  }

  function ValueDen(exp: int, sig: nat): (d: nat)
    ensures d > 0
  {
    var e := ReadExponent(exp, sig);
    if e >= 1 then 1 else Pow2(1 - e)
  }

  /** The band just below 2^-126 whose rounding carries into the normal range. */
  predicate LosesCarry(n: nat, d: nat) {
    (NORMAL - 4) * d <= n < NORMAL * d
  }

  /** What the normaliser delivers on every input: the correctly rounded magnitude, except that a
      carry out of the subnormal range is dropped and leaves zero. */
  ghost predicate Normalized(n: nat, d: nat, m: nat) {
    if LosesCarry(n, d) then m == 0 else RoundsTo(n, 8 * d, m)
  }

  /** In the band and above it, zero is not the nearest. */
  lemma AboveBandIsNotZero(n: nat, d: nat)
    requires d > 0 && n >= (NORMAL - 4) * d
    ensures !RoundsTo(n, 8 * d, 0)
  {
    assert Pow2(0) == 1;
    hide Pow2, Units;
    UnitsOfParts(1, 0);
    UnitsOfParts(1, HIDDEN);
    assert Distance(n, 8 * d, HIDDEN) < Distance(n, 8 * d, 0);
  }

  /** Anything in the band rounds to the smallest normal number. */
  lemma BandRounds(n: nat, d: nat)
    requires d > 0 && LosesCarry(n, d)
    ensures RoundsTo(n, 8 * d, HIDDEN)
  {
    assert Pow2(0) == 1;
    hide Pow2, Units, RoundsTo;
    UnitsOfParts(1, HIDDEN - 1);
    UnitsOfParts(1, HIDDEN);
    RoundedBetween(n, 8 * d, HIDDEN - 1, HIDDEN);
  }

  /** The current pair (e, sig) of the normaliser still stands for n / d eighths of a unit. */
  ghost predicate Represents(n: nat, d: nat, e: int, sig: nat) {
    if e >= 1 then Jammed(n, d * Pow2(e - 1), sig) else Jammed(n * Pow2(1 - e), d, sig)
  }

  ghost predicate Exactly(n: nat, d: nat, e: int, sig: nat) {
    if e >= 1 then n == sig * (d * Pow2(e - 1)) else n * Pow2(1 - e) == sig * d
  }

  lemma ArgumentsAreExact(exp: int, sig: nat)
    ensures Exactly(ValueNum(exp, sig), ValueDen(exp, sig), ReadExponent(exp, sig), sig)
  {
  }

  lemma ExactlyRepresents(n: nat, d: nat, e: int, sig: nat)
    requires d > 0 && Exactly(n, d, e, sig)
    ensures Represents(n, d, e, sig)
  {
    assert (if e >= 1 then d * Pow2(e - 1) else d) > 0;
  }

  /** A sticky right shift with the exponent raised keeps the represented value. */
  lemma ShiftRightKeeps(n: nat, d: nat, e: int, sig: nat)
    requires d > 0 && Represents(n, d, e, sig)
    ensures Represents(n, d, e + 1, JamShift(sig))
  {
    if e >= 1 {
      assert Pow2(e) == 2 * Pow2(e - 1);
      hide Pow2, Jammed, JamShift;
      JamShiftKeeps(n, d * Pow2(e - 1), sig);
      MulAssoc(d, 2, Pow2(e - 1));
    } else {
      assert Pow2(1 - e) == 2 * Pow2(-e) && Pow2(0) == 1;
      hide Pow2, Jammed, JamShift;
      MulAssoc(n, 2, Pow2(-e));
      JamShiftHalves(n * Pow2(-e), d, sig);
    }
  }

  /** A left shift with the exponent lowered is exact. */
  lemma ShiftLeftKeeps(n: nat, d: nat, e: int, sig: nat)
    requires d > 0 && e >= 1 && Exactly(n, d, e, sig)
    ensures Exactly(n, d, e - 1, 2 * sig)
  {
    if e >= 2 {
      assert Pow2(e - 1) == 2 * Pow2(e - 2);
      hide Pow2;
      MulAssoc(d, 2, Pow2(e - 2));
      MulAssoc(sig, 2, d * Pow2(e - 2));
    } else {
      assert Pow2(0) == 1 && Pow2(1) == 2;
      hide Pow2;
      MulAssoc(2, sig, d);
    }
  }

  lemma NormalIsRounded(n: nat, d: nat, e: int, sig: nat)
    requires d > 0 && 1 <= e <= 254 && NORMAL <= sig < CARRIED && Represents(n, d, e, sig)
    ensures Normalized(n, d, (e - 1) * HIDDEN + DropGuardBits(sig))
  {
    hide Pow2, Jammed, Decides, RoundsTo, LosesCarry, DropGuardBits;
    JammedDecides(n, d * Pow2(e - 1), sig);
    DropGuardBitsRounds(n, d, e, sig);
    NoCarryLost(n, d, e, sig);
  }

  lemma NoCarryLost(n: nat, d: nat, e: int, sig: nat)
    requires d > 0 && 1 <= e && NORMAL <= sig && Represents(n, d, e, sig)
    ensures !LosesCarry(n, d)
  {
    hide Pow2, Jammed;
    JammedBound(n, d * Pow2(e - 1), sig, NORMAL);
    MulAssoc(NORMAL, d, Pow2(e - 1));
    ScaleMonotone(1, Pow2(e - 1), NORMAL * d);
  }

  lemma FirstGrain(n: nat, d: nat, sig: nat)
    requires Represents(n, d, 1, sig)
    ensures d * Pow2(0) == d && Jammed(n, d, sig)
  {
    hide Jammed;
    assert Pow2(0) == 1;
  }

  lemma LostIff(n: nat, d: nat, sig: nat)
    requires d > 0 && Jammed(n, d, sig) && sig < NORMAL
    ensures LosesCarry(n, d) <==> sig >= NORMAL - 4
  {
    hide Jammed;
    JammedBound(n, d, sig, NORMAL - 4);
    JammedBound(n, d, sig, NORMAL);
  }

  lemma DropToHidden(sig: nat)
    requires sig < NORMAL
    ensures DropGuardBits(sig) <= HIDDEN && (DropGuardBits(sig) == HIDDEN <==> sig >= NORMAL - 4)
  {
  }

  lemma SubnormalIsRounded(n: nat, d: nat, sig: nat)
    requires d > 0 && sig < NORMAL && Represents(n, d, 1, sig)
    ensures DropGuardBits(sig) <= HIDDEN
    ensures Normalized(n, d, if DropGuardBits(sig) == HIDDEN then 0 else DropGuardBits(sig))
  {
    hide Pow2, Jammed, Decides, RoundsTo, DropGuardBits, LosesCarry, Represents;
    FirstGrain(n, d, sig);
    DropToHidden(sig);
    LostIff(n, d, sig);
    JammedDecides(n, d, sig);
    DropGuardBitsRounds(n, d, 1, sig);
  }

  lemma LargeIsInfinite(n: nat, d: nat, e: int, sig: nat)
    requires d > 0 && e >= 255 && sig >= NORMAL && Represents(n, d, e, sig)
    ensures Normalized(n, d, INFINITY)
  {
    hide Pow2, Jammed, RoundsTo, LosesCarry;
    TopExponentOverflows(n, d, e, sig);
    NoCarryLost(n, d, e, sig);
  }

  lemma TinyIsZero(n: nat, d: nat, e: int, sig: nat)
    requires d > 0 && e < 0 && sig <= 4 && Represents(n, d, e, sig)
    ensures Normalized(n, d, 0)
  {
    Pow2Monotone(2, 1 - e);
    assert Pow2(2) == 4;
    hide Pow2, Jammed, Normalized;
    JammedBound(n * Pow2(1 - e), d, sig, 4);
    QuarterBound(n, Pow2(1 - e), d);
    SmallIsZero(n, d);
  }

  lemma QuarterBound(n: nat, p: nat, d: nat)
    requires p >= 4 && n * p <= 4 * d
    ensures n <= d
  {
    assert n * p >= n * 4;
  }

  lemma SmallIsZero(n: nat, d: nat)
    requires d > 0 && n <= d
    ensures Normalized(n, d, 0)
  {
    hide RoundsTo;
    UnitsOfParts(1, 0);
    UnitsOfParts(1, 1);
    assert Units(0) == 0 && Units(1) == 1;
    RoundedBetween(n, 8 * d, 0, 0);
  }

  /** What the shifting half hands to the rounding half. */
  ghost predicate Placed(n: nat, d: nat, e: int, sig: nat, overflow: bool)
    requires d > 0
  {
    if overflow then (e == 0 || e == 0xff) && sig == 0 && Normalized(n, d, e * HIDDEN)
    else if e == 0 then sig < NORMAL && Represents(n, d, 1, sig)
    else e > 0 && Represents(n, d, e, sig) && NORMAL <= sig < CARRIED
  }

  lemma StickyStep(sig: nat, sticky: nat)
    requires sticky == sig % 2
    ensures var bit := OrBit(sig / 2 % 2, sticky) % 2;
            OrBit(sig / 2, bit) == JamShift(sig) && bit == JamShift(sig) % 2
    ensures if sig / NORMAL > 1 then JamShift(sig) >= NORMAL else JamShift(sig) < NORMAL
  {
  }

  /** Normalising towards the right: the shifted-out bits stay sticky. */
  method ShiftRight(exp: int, sigGrs: nat, ghost n: nat, ghost d: nat) returns (e: int, sig: nat, overflow: bool)
    requires d > 0 && Represents(n, d, exp, sigGrs)
    requires sigGrs >= CARRIED || exp < 0
    ensures Placed(n, d, e, sig, overflow)
  {
    hide Represents, Normalized, OrBit, JamShift;
    e, sig, overflow := exp, sigGrs, false;
    var sticky := sig % 2;
    while (sig / NORMAL > 1 && e < 0xff) || (sig > 4 && e < 0)
      invariant 0 <= sig && sticky == sig % 2
      invariant Represents(n, d, e, sig)
      invariant e >= 1 ==> sig >= NORMAL
      decreases 0xff - e
    {
      ShiftRightKeeps(n, d, e, sig);
      StickyStep(sig, sticky);
      sig := sig / 2;
      sticky := OrBit(sig % 2, sticky) % 2;
      sig := OrBit(sig, sticky);
      e := e + 1;
    }
    if e >= 0xff {
      LargeIsInfinite(n, d, e, sig);
      sig, e, overflow := 0, 0xff, true;
    }
    if e == 0 {
      ShiftRightKeeps(n, d, e, sig);
      StickyStep(sig, sticky);
      sig := StickyShift(sig);
    }
    if e < 0 {
      TinyIsZero(n, d, e, sig);
      e, sig, overflow := 0, 0, true;
    }
  }

  /** Normalising towards the left: exact, stopping at the subnormal scale. */
  method ShiftLeft(exp: int, sigGrs: nat, ghost n: nat, ghost d: nat) returns (e: int, sig: nat)
    requires d > 0 && Exactly(n, d, exp, sigGrs)
    requires sigGrs < NORMAL && exp > 0
    ensures Placed(n, d, e, sig, false)
  {
    hide Represents, Exactly, Normalized, Pow2, Jammed, Placed, JamShift, OrBit, LosesCarry, RoundsTo, Decides;
    e, sig := exp, sigGrs;
    while sig / NORMAL == 0 && e > 0
      invariant 0 <= e
      invariant sig < CARRIED
      invariant Exactly(n, d, e, sig)
      invariant e == 0 ==> sig % 2 == 0
      decreases e
    {
      ShiftLeftKeeps(n, d, e, sig);
      Doubled(sig);
      sig := sig * 2;
      e := e - 1;
    }
    Doubled(sig);
    LeftIsPlaced(n, d, e, sig);
    if e == 0 {
      sig := StickyShift(sig);
    }
  }

  lemma Doubled(sig: nat)
    ensures sig / NORMAL == 0 <==> sig < NORMAL
    ensures sig * 2 % 2 == 0 && (sig < NORMAL ==> sig * 2 < CARRIED)
  {
  }

  lemma LeftIsPlaced(n: nat, d: nat, e: int, sig: nat)
    requires d > 0 && e >= 0 && Exactly(n, d, e, sig)
    requires sig < CARRIED && (e > 0 ==> sig >= NORMAL) && (e == 0 ==> sig % 2 == 0)
    ensures Placed(n, d, e, if e == 0 then JamShift(sig) else sig, false)
  {
    hide Represents, Exactly;
    ExactlyRepresents(n, d, e, sig);
    if e == 0 { ShiftRightKeeps(n, d, e, sig); }
  }

  /** One right shift in the source's own terms: the bit shifted out is or-ed into the new low bit. */
  method StickyShift(sig: nat) returns (r: nat)
    ensures r == JamShift(sig)
  {
    var sticky := sig % 2;
    r := sig / 2;
    sticky := OrBit(r % 2, sticky) % 2;
    r := OrBit(r, sticky);
  }

  lemma PlacedIsRounded(n: nat, d: nat, e: int, sig: nat)
    requires d > 0 && Placed(n, d, e, sig, false)
    ensures e == 0 ==> DropGuardBits(sig) <= HIDDEN
    ensures Normalized(n, d,
      if e == 0 then DropGuardBits(sig) % HIDDEN
      else if e < 0xff then (e - 1) * HIDDEN + DropGuardBits(sig)
      else INFINITY)
  {
    hide Represents, Normalized;
    if e == 0 {
      SubnormalIsRounded(n, d, sig);
    } else if e < 0xff {
      NormalIsRounded(n, d, e, sig);
    } else {
      LargeIsInfinite(n, d, e, sig);
    }
  }

  /** The rounding half: drop the guard bits, renormalise a carry, saturate to infinity. */
  method RoundOff(exp: int, sigGrs: nat) returns (e: int, sig: nat)
    requires 0 <= exp && sigGrs < CARRIED && (exp == 0 ==> sigGrs < NORMAL) && (exp > 0 ==> NORMAL <= sigGrs)
    ensures 0 <= e <= 0xff
    ensures e * HIDDEN + sig % HIDDEN ==
      if exp == 0 then DropGuardBits(sigGrs) % HIDDEN
      else if exp < 0xff then (exp - 1) * HIDDEN + DropGuardBits(sigGrs)
      else INFINITY
  {
    e, sig := exp, sigGrs;
    ghost var rounded := DropGuardBits(sig);
    var grs := sig % 8;
    if grs < 4 {
      sig := sig / 8;
    } else if grs == 4 {
      sig := sig / 8;
      if sig % 2 == 1 { sig := sig + 1; }
    } else {
      sig := sig / 8;
      sig := sig + 1;
    }
    assert sig == rounded;
    while sig / HIDDEN > 1 && e < 0xff
      invariant exp <= e && (exp == 0 || exp >= 0xff ==> e == exp && sig == rounded)
      invariant 1 <= exp < 0xff ==> e <= 0xff && HIDDEN <= sig <= 2 * HIDDEN
      invariant 1 <= exp < 0xff ==> (e - 1) * HIDDEN + sig == (exp - 1) * HIDDEN + rounded
      invariant 1 <= exp < 0xff && e == 0xff ==> sig == HIDDEN
      decreases 0xff - e
    {
      e := e + 1;
      sig := sig / 2;
    }
    if e >= 0xff {
      e := 0xff;
      sig := 0;
    }
  }

  method NormalizeValue(sign: Word, exp: int, sigGrs: nat, ghost n: nat, ghost d: nat) returns (r: Word)
    requires d > 0
    requires
      if sigGrs >= CARRIED || exp < 0 then Represents(n, d, exp, sigGrs)
      else if sigGrs < NORMAL && exp > 0 then Exactly(n, d, exp, sigGrs)
      else Placed(n, d, if exp == 0 && sigGrs >= NORMAL then 1 else exp, sigGrs, false)
    ensures SignOf(r) == sign % 2
    ensures Normalized(n, d, MagnitudeOf(r))
  {
    hide Represents, Exactly, Normalized, DropGuardBits;
    var e, sig, overflow := exp, sigGrs, false;
    if sig / NORMAL > 1 || e < 0 {
      e, sig, overflow := ShiftRight(e, sig, n, d);
    } else if sig / NORMAL == 0 && e > 0 {
      e, sig := ShiftLeft(e, sig, n, d);
    } else if e == 0 && sig / NORMAL == 1 {
      e := e + 1;
    }
    assert Placed(n, d, e, sig, overflow);
    if !overflow {
      PlacedIsRounded(n, d, e, sig);
      e, sig := RoundOff(e, sig);
    }
    ghost var m := e * HIDDEN + sig % HIDDEN;
    assert Normalized(n, d, m);
    r := Pack(sign % 2, e % 256, sig % HIDDEN);
    PackFields(sign % 2, e % 256, sig % HIDDEN);
    assert MagnitudeOf(r) == m;
  }

  /** Which form of the invariant each branch of the normaliser starts from. */
  lemma BranchInvariant(exp: int, sig: nat)
    ensures var n, d := ValueNum(exp, sig), ValueDen(exp, sig);
      if sig >= CARRIED || exp < 0 then Represents(n, d, exp, sig)
      else if sig < NORMAL && exp > 0 then Exactly(n, d, exp, sig)
      else Placed(n, d, if exp == 0 && sig >= NORMAL then 1 else exp, sig, false)
  {
    ArgumentsAreExact(exp, sig);
    ExactlyRepresents(ValueNum(exp, sig), ValueDen(exp, sig), ReadExponent(exp, sig), sig);
  }

  method InternalNormalize(sign: Word, exp: int, sigGrs: nat) returns (r: Word)
    requires -0x8000_0000 <= exp < 0x8000_0000
    requires sigGrs < 0x1_0000_0000_0000_0000
    ensures SignOf(r) == sign % 2
    ensures Normalized(ValueNum(exp, sigGrs), ValueDen(exp, sigGrs), MagnitudeOf(r))
  {
    ghost var n, d := ValueNum(exp, sigGrs), ValueDen(exp, sigGrs);
    BranchInvariant(exp, sigGrs);
    r := NormalizeValue(sign, exp, sigGrs, n, d);
  }
}
