/**
 Why three extra bits are enough. A significand carries guard, round and sticky bits; a value
 n / (8 * d) units is represented at exponent e by an integer `sig` of grain d * 2^(e-1) over
 eighths of a unit. The lemmas say which represented values round alike.
 */
module GuardBits {
  import opened Powers
  import opened Binary32

  const NORMAL: nat := 0x400_0000      // 2^26, hidden bit plus guard bits
  const CARRIED: nat := 0x800_0000     // 2^27

  /** `x | s` for a single bit s. */
  function OrBit(x: nat, s: nat): nat
    requires s < 2
  {
    if x % 2 == 0 then x + s else x
  }

  /** One right shift that keeps the shifted-out bit sticky. */
  function JamShift(sig: nat): nat { OrBit(sig / 2, sig % 2) }

  /** What the last step of the normaliser does: drop three bits, to nearest, ties to even. */
  function DropGuardBits(sig: nat): nat {
    var q, g := sig / 8, sig % 8;
    if g < 4 || (g == 4 && q % 2 == 0) then q else q + 1
  }

  /** n / g equals sig, except that an odd sig stands for everything strictly within one of it. */
  ghost predicate Jammed(n: nat, g: nat, sig: nat) {
    Within(n, g, sig, sig * g)
  }

  ghost predicate Within(n: nat, g: nat, sig: nat, p: nat) {
    if sig % 2 == 0 then n == p else p - g < n < p + g
  }

  /** The guard bits of sig tell on which side of the midpoint n / g lies. */
  ghost predicate Decides(n: nat, g: nat, sig: nat) {
    var p := sig / 8 * g;
    if sig % 8 < 4 then 8 * p <= n < 8 * p + 4 * g
    else if sig % 8 == 4 then n == 8 * p + 4 * g
    else 8 * p + 4 * g < n < 8 * p + 8 * g
  }

  lemma JammedDecides(n: nat, g: nat, sig: nat)
    requires g > 0 && Jammed(n, g, sig)
    ensures Decides(n, g, sig)
  {
    hide Jammed, Decides;
    var q, r, t := sig / 8, sig % 8, sig * g;
    GuardProducts(sig, g);
    JammedIs(n, g, sig, t);
    SmallMultiples(r, g);
    GuardCases(n, g, q * g, r, r * g);
    DecidesIf(n, g, sig, q * g);
  }

  lemma GuardProducts(sig: nat, g: nat)
    ensures sig * g == 8 * (sig / 8 * g) + sig % 8 * g && sig % 8 % 2 == sig % 2
  {
    var q, r := sig / 8, sig % 8;
    assert sig == 8 * q + r;
    SplitProduct(8 * q, r, g);
    MulAssoc(8, q, g);
  }

  lemma JammedIs(n: nat, g: nat, sig: nat, t: nat)
    requires Jammed(n, g, sig) && t == sig * g
    ensures Within(n, g, sig, t)
  {
  }

  lemma IsJammed(n: nat, g: nat, sig: nat, t: nat)
    requires t == sig * g && Within(n, g, sig, t)
    ensures Jammed(n, g, sig)
  {
  }

  lemma DecidesIf(n: nat, g: nat, sig: nat, p: nat)
    requires p == sig / 8 * g
    requires sig % 8 < 4 ==> 8 * p <= n < 8 * p + 4 * g
    requires sig % 8 == 4 ==> n == 8 * p + 4 * g
    requires sig % 8 > 4 ==> 8 * p + 4 * g < n < 8 * p + 8 * g
    ensures Decides(n, g, sig)
  {
  }

  /** The same, for the three guard bits alone. */
  lemma GuardCases(n: nat, g: nat, p: nat, r: nat, rg: nat)
    requires g > 0 && r < 8
    requires rg == if r == 0 then 0 else if r == 1 then g else if r == 2 then 2 * g else if r == 3 then 3 * g
      else if r == 4 then 4 * g else if r == 5 then 5 * g else if r == 6 then 6 * g else 7 * g
    requires if r % 2 == 0 then n == 8 * p + rg else 8 * p + rg - g < n < 8 * p + rg + g
    ensures r < 4 ==> 8 * p <= n < 8 * p + 4 * g
    ensures r == 4 ==> n == 8 * p + 4 * g
    ensures r > 4 ==> 8 * p + 4 * g < n < 8 * p + 8 * g
  {
  }

  lemma SplitProduct(a: nat, b: nat, g: nat)
    ensures (a + b) * g == a * g + b * g
  {
  }

  lemma SmallMultiples(r: nat, g: nat)
    requires r < 8
    ensures r * g == if r == 0 then 0 else if r == 1 then g else if r == 2 then 2 * g else if r == 3 then 3 * g
      else if r == 4 then 4 * g else if r == 5 then 5 * g else if r == 6 then 6 * g else 7 * g
  {
  }

  /** An even bound separates the sticky significand exactly where it separates the value. */
  lemma JammedBound(n: nat, g: nat, sig: nat, c: nat)
    requires g > 0 && Jammed(n, g, sig) && c % 2 == 0
    ensures c <= sig <==> c * g <= n
    ensures c == sig ==> n == c * g
  {
    if sig < c {
      SplitProduct(sig, 1, g);
      ScaleMonotone(sig + 1, c, g);
    } else if c < sig {
      SplitProduct(sig - 1, 1, g);
      ScaleMonotone(c, sig - 1, g);
    }
  }

  /** Shifting right with a sticky bit keeps the representation at twice the grain. */
  lemma JamShiftKeeps(n: nat, g: nat, sig: nat)
    requires g > 0 && Jammed(n, g, sig)
    ensures Jammed(n, 2 * g, JamShift(sig))
  {
    var h, r := sig / 2, sig % 2;
    assert sig == 2 * h + r;
    Halved(h, r, g);
    assert JamShift(sig) == if r == 0 || h % 2 == 1 then h else h + 1;
  }

  lemma Halved(h: nat, r: nat, g: nat)
    requires r < 2
    ensures (2 * h + r) * g == 2 * (h * g) + (if r == 0 then 0 else g)
    ensures h * (2 * g) == 2 * (h * g)
    ensures (h + 1) * (2 * g) == 2 * (h * g) + 2 * g
  {
  }

  /** The same, seen with the value doubled instead of the grain. */
  lemma JamShiftHalves(n: nat, g: nat, sig: nat)
    requires g > 0 && Jammed(2 * n, g, sig)
    ensures Jammed(n, g, JamShift(sig))
  {
    JamShiftKeeps(2 * n, g, sig);
    Halved(JamShift(sig), 0, g);
  }

  /** Dropping the guard bits of a normalised (or subnormal, e = 1) significand rounds correctly,
      and the carry out of the significand lands in the exponent. */
  lemma DroppedToNearest(n: nat, g: nat, sig: nat, p: nat)
    requires Decides(n, g, sig) && p == sig / 8 * g && g > 0
    ensures 8 * p <= n < 8 * p + 8 * g
    ensures var q := sig / 8;
            DropGuardBits(sig) == if 2 * n < 16 * p + 8 * g || (2 * n == 16 * p + 8 * g && q % 2 == 0) then q else q + 1
  {
  }

  lemma DropGuardBitsRounds(n: nat, d: nat, e: nat, sig: nat)
    requires d > 0 && 1 <= e <= 254
    requires NORMAL <= sig < CARRIED || (e == 1 && sig < NORMAL)
    requires Decides(n, d * Pow2(e - 1), sig)
    ensures RoundsTo(n, 8 * d, (e - 1) * HIDDEN + DropGuardBits(sig))
  {
    hide Pow2, Units, RoundsTo, Decides, DropGuardBits;
    ScaleMonotone(0, d, Pow2(e - 1));
    DropWithGrain(n, d, e, sig, d * Pow2(e - 1));
  }

  lemma DropWithGrain(n: nat, d: nat, e: nat, sig: nat, g: nat)
    requires d > 0 && 1 <= e <= 254 && g > 0 && g == d * Pow2(e - 1)
    requires NORMAL <= sig < CARRIED || (e == 1 && sig < NORMAL)
    requires Decides(n, g, sig)
    ensures RoundsTo(n, 8 * d, (e - 1) * HIDDEN + DropGuardBits(sig))
  {
    hide Pow2, Units, RoundsTo, Decides, DropGuardBits;
    GuardIndex(e, sig);
    var lo, p, d8 := (e - 1) * HIDDEN + sig / 8, sig / 8 * g, 8 * d;
    assert Units(lo) * d8 == 8 * p && Units(lo + 1) * d8 == 8 * p + 8 * g by {
      NeighbourUnits(d, e, sig / 8, g);
    }
    DroppedRounds(n, d8, lo, (e - 1) * HIDDEN + DropGuardBits(sig), g, sig, p);
  }

  /** The same, with the two neighbours given. */
  lemma DroppedRounds(n: nat, d: nat, lo: nat, m: nat, g: nat, sig: nat, p: nat)
    requires g > 0 && d > 0 && Decides(n, g, sig) && p == sig / 8 * g
    requires Units(lo) * d == 8 * p && Units(lo + 1) * d == 8 * p + 8 * g
    requires lo < INFINITY && lo % 2 == sig / 8 % 2
    requires m == if DropGuardBits(sig) == sig / 8 then lo else lo + 1
    ensures RoundsTo(n, d, m)
  {
    hide Units, RoundsTo, Decides, DropGuardBits;
    DroppedToNearest(n, g, sig, p);
    BetweenNeighbours(n, d, lo, m, 8 * p, 8 * g);
  }

  /** The magnitude below the rounding point, as an index. */
  lemma GuardIndex(e: nat, sig: nat)
    requires 1 <= e <= 254
    requires NORMAL <= sig < CARRIED || (e == 1 && sig < NORMAL)
    ensures var lo := (e - 1) * HIDDEN + sig / 8;
      && lo < INFINITY && lo % 2 == sig / 8 % 2
      && (HIDDEN <= sig / 8 < 2 * HIDDEN || (e == 1 && sig / 8 < HIDDEN))
      && (e - 1) * HIDDEN + DropGuardBits(sig) == if DropGuardBits(sig) == sig / 8 then lo else lo + 1
  {
  }

  lemma BetweenNeighbours(n: nat, d: nat, lo: nat, m: nat, u: nat, step: nat)
    requires d > 0 && lo < INFINITY && Units(lo) * d == u && Units(lo + 1) * d == u + step
    requires u <= n < u + step
    requires m == if 2 * n < 2 * u + step || (2 * n == 2 * u + step && lo % 2 == 0) then lo else lo + 1
    ensures RoundsTo(n, d, m)
  {
    hide Units, RoundsTo;
    RoundedBetween(n, d, lo, m);
  }

  lemma NeighbourUnits(d: nat, e: nat, q: nat, g: nat)
    requires 1 <= e && g == d * Pow2(e - 1)
    requires HIDDEN <= q < 2 * HIDDEN || (e == 1 && q < HIDDEN)
    ensures var lo := (e - 1) * HIDDEN + q;
      Units(lo) * (8 * d) == 8 * (q * g) && Units(lo + 1) * (8 * d) == 8 * (q * g) + 8 * g
  {
    hide Units;
    UnitsOfParts(e, q);
    UnitsOfParts(e, q + 1);
    assert (e - 1) * HIDDEN + q + 1 == (e - 1) * HIDDEN + (q + 1);
    var w := Pow2(e - 1);
    hide Pow2;
    MulShuffle(q, w, d);
    MulShuffle(q + 1, w, d);
    SplitProduct(q, 1, g);
  }

  lemma MulShuffle(q: nat, w: nat, d: nat)
    ensures q * w * (8 * d) == 8 * (q * (d * w))
  {
    MulAssoc(q, w, d);
  }

  /** A significand with its hidden bit at exponent 255 is already past the overflow bound. */
  lemma TopExponentOverflows(n: nat, d: nat, e: nat, sig: nat)
    requires d > 0 && e >= 255 && sig >= NORMAL
    requires Jammed(n, d * Pow2(e - 1), sig)
    ensures RoundsTo(n, 8 * d, INFINITY)
  {
    hide Pow2, RoundsTo;
    var g := d * Pow2(e - 1);
    JammedBound(n, g, sig, NORMAL);
    GrainBeyond(d, e);
    BeyondLargest(n, 8 * d);
  }

  lemma GrainBeyond(d: nat, e: nat)
    requires d > 0 && e >= 255
    ensures NORMAL * (d * Pow2(e - 1)) >= OverflowBound() * (8 * d)
  {
    hide Pow2;
    TwoMore(252);
    Pow2Monotone(254, e - 1);
    ScaleMonotone(Pow2(254), Pow2(e - 1), d);
    OverflowScale(Pow2(252), d, d * Pow2(e - 1));
  }

  lemma TwoMore(k: nat)
    ensures Pow2(k + 2) == 4 * Pow2(k)
  {
    assert Pow2(k + 2) == 2 * Pow2(k + 1);
  }

  lemma OverflowScale(w: nat, d: nat, g: nat)
    requires g >= 4 * w * d
    ensures NORMAL * g >= 0x1ff_ffff * w * (8 * d)
  {
    MulAssoc(4, w, d);
    MulShuffle(0x1ff_ffff, w, d);
    MulAssoc(w, d, 1);
  }
}
