/** Powers of two and the linear facts about them that the machine models need. */
module Powers {
  function Pow2(k: nat): (r: nat)
    ensures r > 0
  {
    if k == 0 then 1 else 2 * Pow2(k - 1)
  }

  lemma Pow2Step(k: nat)
    ensures Pow2(k + 1) == 2 * Pow2(k)
  {
  }

  lemma {:induction false} Pow2Add(a: nat, b: nat)
    ensures Pow2(a + b) == Pow2(a) * Pow2(b)
  {
    if a > 0 {
      Pow2Add(a - 1, b);
      assert Pow2(a + b) == 2 * Pow2(a - 1 + b);
    }
  }

  lemma {:induction false} Pow2Monotone(a: nat, b: nat)
    requires a <= b
    ensures Pow2(a) <= Pow2(b)
  {
    if a < b {
      Pow2Monotone(a, b - 1);
    }
  }

  /** Multiplying both sides of a comparison by a positive factor. */
  lemma ScaleMonotone(a: int, b: int, k: int)
    requires k > 0
    ensures a < b ==> a * k < b * k
    ensures a <= b ==> a * k <= b * k
    ensures a == b ==> a * k == b * k
  {
  }

  lemma MulSwap(a: int, x: int, b: int, y: int)
    ensures (a * x) * (b * y) == (a * b) * (x * y)
  {
  }

  lemma MulAssoc(a: int, b: int, c: int)
    ensures a * b * c == a * (b * c) == b * (a * c)
  {
  }

  /** Exponents add under the product of scaled integers. */
  lemma ScaledProduct(a: nat, i: nat, b: nat, j: nat)
    ensures (a * Pow2(i)) * (b * Pow2(j)) == (a * b) * Pow2(i + j)
  {
    Pow2Add(i, j);
    MulSwap(a, Pow2(i), b, Pow2(j));
  }

  lemma ScaledTwice(a: nat, i: nat, j: nat)
    ensures a * Pow2(i) * Pow2(j) == a * Pow2(i + j)
  {
    Pow2Add(i, j);
    MulAssoc(a, Pow2(i), Pow2(j));
  }

  /** Quotient and remainder are determined. */
  lemma DivMod(x: nat, p: nat, q: nat, a: nat)
    requires x == p * q + a && a < p
    ensures x / p == q && x % p == a
  {
    var q', a' := x / p, x % p;
    assert x == p * q' + a';
    Distribute(p, q');
    Distribute(p, q);
    if q' < q { ScaleMonotone(q' + 1, q, p); }
    if q < q' { ScaleMonotone(q + 1, q', p); }
  }

  /** A product that is left alone. */
  function Times(x: nat, y: nat): nat { x * y }

  lemma Distribute(p: int, q: int)
    ensures p * (q + 1) == (q + 1) * p == p * q + p && p * q == q * p
  {
  }
}
