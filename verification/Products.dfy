/** When the rounding of mul_var, one place finer than asked for, is that of the place asked for. */
module Products {
  import opened Decimal
  import opened Magnitudes
  import opened Multiplication
  import opened Quotients

  /** The part of p below 10^k, which is dropped, is at least half but less than 0.95 of 10^k. */
  ghost predicate TenthLost(p: nat, k: int)
  {
    k >= 1 && 2 * (p % Pow10(k)) >= Pow10(k) && 20 * (p % Pow10(k)) < 19 * Pow10(k)
  }

  lemma RoundAbove(p: nat, b: nat, q: nat, g: nat)
    requires b > 0 && p == q * b + g
    ensures RoundDiv(p, b) == q + RoundDiv(g, b)
  {
    assert g * 1 == g && p * 1 == p && q * 1 == q;
    RoundWhole(p, q, b, g, 1, RoundDiv(g, b));
  }

  /** Rounding the whole units away, at 10^k and one place finer. */
  lemma TenthSplit(p: nat, k: nat, t: nat, q: nat, g: nat)
    requires k >= 1 && t == Pow10(k - 1) && p == q * (10 * t) + g && g < 10 * t
    ensures RoundDiv(p, 10 * t) == q + RoundDiv(g, 10 * t)
    ensures RoundDiv(p, t) == 10 * q + RoundDiv(g, t) && RoundDiv(g, t) == RoundDiv(10 * g, 10 * t) <= 10
  {
    RoundAbove(p, 10 * t, q, g);
    MulAssoc(q, 10, t);
    RoundAbove(p, t, 10 * q, g);
    RoundDivScaled(g, t, 10);
    RoundSmall(10 * g, 10 * t);
  }

  lemma CutTenth(q: nat, f: nat)
    requires f <= 10
    ensures Cut(10 * q + f, 1) == q + Cut(f, 1)
  {
    assert Pow10(1) == 10;
  }

  /** In units t, ten of which make the place asked for. */
  lemma TenthOf(p: nat, k: nat, t: nat, q: nat, g: nat)
    requires k >= 1 && t == Pow10(k - 1) && p == q * (10 * t) + g && g < 10 * t
    ensures Cut(RoundDiv(p, t), 1) == RoundDiv(p, 10 * t) <==> !(2 * g >= 10 * t && 20 * g < 19 * (10 * t))
  {
    TenthSplit(p, k, t, q, g);
    CutTenth(q, RoundDiv(g, t));
    CutOfTenth(10 * g, 10 * t, g);
  }

  lemma HalfUpIs(p: nat, k: nat)
    ensures HalfUp(p, k) == RoundDiv(p, Pow10(k))
  {
    if k == 0 { RoundDivExact(p, 1); }
  }

  /** Rounding at one place finer and cutting that place off, against rounding at once. */
  lemma TenthIff(p: nat, k: int)
    ensures Cut(HalfUp(p, k - 1), 1) == HalfUp(p, k) <==> !TenthLost(p, k)
  {
    if k >= 1 {
      var u := Pow10(k);
      assert p == p / u * u + p % u;
      TenthOf(p, k, Pow10(k - 1), p / u, p % u);
      HalfUpIs(p, k - 1);
      HalfUpIs(p, k);
    } else {
      assert Pow10(1 - k) == 10 * Pow10(-k) && Pow10(1) == 10;
      TenIn(p, Pow10(-k));
      DivUnique(HalfUp(p, k - 1), 10, HalfUp(p, k), 0);
    }
  }

  lemma BelowBoth(x: nat, y: nat, u: nat, v: nat)
    requires x < u && y < v
    ensures x * y < u * v
  {
    MulMono(y, v, x);
    ProductBelow(x, u, v);
  }

  lemma CoefsBelow(a: Mag, b: Mag, n: nat)
    requires n == |a.digits| + |b.digits|
    ensures a.Coef() * b.Coef() < Pow10(n)
  {
    PrefixBound(a.digits, |a.digits|);
    PrefixBound(b.digits, |b.digits|);
    Pow10Add(|a.digits|, |b.digits|);
    BelowBoth(a.Coef(), b.Coef(), Pow10(|a.digits|), Pow10(|b.digits|));
  }

  /** A product kept whole is less than a hundredth of the place asked for. */
  lemma KeptSmall(a: Mag, b: Mag, r: int, p: nat, k: int)
    requires a.weight + b.weight + r + 4 < 0 && p == a.Coef() * b.Coef() && k == a.Scale() + b.Scale() - r
    ensures k >= 2 && 100 * p < Pow10(k)
  {
    var n := |a.digits| + |b.digits|;
    CoefsBelow(a, b, n);
    Pow10Mono(n, n + 1);
    Pow10Mono(n + 1, k);
  }

  lemma KeptIff(p: nat, k: nat)
    requires k >= 1 && 100 * p < Pow10(k)
    ensures Cut(p, k) == HalfUp(p, k) == 0 && !TenthLost(p, k)
  {
    DivUnique(p, Pow10(k), 0, p);
    RoundDivIs(p, Pow10(k), 0);
  }

  /** Cut off at the scale asked for, mul_var's result is the product rounded half away from zero for exactly
      the operands whose dropped part is not in [0.5, 0.95) of the last place. */
  lemma ProductRoundsIff(a: Mag, b: Mag, r: int, p: nat, k: int)
    requires p == a.Coef() * b.Coef() && k == a.Scale() + b.Scale() - r
    ensures Cut(ProductOf(a, b, r), ProductScale(a, b, r) - r) == HalfUp(p, k) <==> !TenthLost(p, k)
  {
    if a.weight + b.weight + r + 4 < 0 {
      KeptSmall(a, b, r, p, k);
      KeptIff(p, k);
      assert ProductOf(a, b, r) == p by { assert p * Pow10(0) == p; }
    } else {
      TenthIff(p, k);
    }
  }

  /** What mul_var leaves of the product p / 10^e is the nearest multiple of 10^-(r+1), a tie going away from zero; a
      product of which that place is above the first digit is kept whole. */
  lemma ProductNearest(a: Mag, b: Mag, r: int, p: nat, e: int, v: nat)
    requires p == a.Coef() * b.Coef() && e == a.Scale() + b.Scale() && v == ProductOf(a, b, r)
    ensures a.weight + b.weight + r + 4 < 0 ==> ProductScale(a, b, r) == e && v == p
    ensures a.weight + b.weight + r + 4 >= 0 ==>
              && ProductScale(a, b, r) == r + 1
              && (e <= r + 1 ==> v == p * Pow10(r + 1 - e))
              && (e > r + 1 ==> var u: int := Pow10(e - r - 1); -u <= 2 * (p - v * u) < u)
  {
    if a.weight + b.weight + r + 4 < 0 {
      assert p * Pow10(0) == p;
    } else if e > r + 1 {
      RoundDivBounds(p, Pow10(e - r - 1));
    }
  }

  /** For instance 0.6 times 1, asked for without decimals, reads 0. */
  lemma ProductMiss(a: Mag, b: Mag)
    requires a == Mag([6], -1) && b == Mag([1], 0)
    ensures a.Coef() == 6 && b.Coef() == 1 && ProductScale(a, b, 0) == 1
    ensures Cut(ProductOf(a, b, 0), 1) == 0 && HalfUp(6, 1) == 1
  {
    assert a.Coef() == 10 * Prefix([6], 0) + 6 && b.Coef() == 10 * Prefix([1], 0) + 1;
    assert Pow10(1) == 10;
    assert 6 * Pow10(0) == 6;
  }
}
