/** What undoes numeric_mul: numeric_div for a factor, numeric_sqrt for a square. */
module Inverses {
  import opened Decimal
  import opened Magnitudes
  import opened AddSub
  import opened Packed
  import opened Arithmetic
  import opened Quotients
  import opened Laws
  import opened Roots

  lemma SquareUnits(v: nat, r: nat, s: nat)
    requires r <= s
    ensures v * v * Pow10(2 * s) == (v * Pow10(s - r)) * (v * Pow10(s - r)) * Pow10(2 * r)
  {
    var t := s - r;
    Pow10Add(t, t);
    Pow10Add(2 * t, 2 * r);
    Regroup(v, Pow10(t), v, Pow10(t));
    MulAssoc(v * v, Pow10(2 * t), Pow10(2 * r));
  }

  lemma SquareValue(p: Numeric, u: Numeric, v: int)
    requires ProductFits(p, p) && u == Product(p, p) && v == p.Value()
    ensures u.Canonical() && u.Value() == v * v && u.rscale == 2 * p.rscale
  {
    ProductIs(p, p);
  }

  lemma RootOfUnits(a: int, v: int, e: nat, s: nat)
    requires a == v * v && e <= s
    ensures a >= 0 && (a == 0 <==> v == 0) && SqrtUnits(a, 2 * e, s) == Abs(v) * Pow10(s - e)
  {
    var x := Abs(v);
    assert a == x * x;
    SquareUnits(x, e, s);
    ExactRoot(a, 2 * e, s, x * Pow10(s - e));
  }

  lemma RootOfValue(u: Numeric, w: int, v: int, e: nat, d: int, s: int)
    requires w == v * v && u.Value() == w && u.rscale == 2 * e && e <= s && s == Min(2000, Max(2 * e, Max(34, d + 4)))
    requires d == if u.dscale < 10 then 10 else if u.dscale > 1000 then 1000 else u.dscale
    ensures w >= 0 && Root(u) == if v == 0 then Encode(0, s + 8, d) else Encode(Abs(v) * Pow10(s - e), s, d)
  {
    RootOfUnits(w, v, e, s);
    RootAs(u, w, 2 * e, d, s);
  }

  /** The square root of a square is the absolute value of p, at the scales s and d that numeric_sqrt chooses. */
  lemma RootOfSquare(p: Numeric, u: Numeric, v: int, e: nat, d: int, s: int)
    requires ProductFits(p, p) && u == Product(p, p) && v == p.Value() && e == p.rscale <= NUMERIC_MAX_RESULT_SCALE
    requires d == Min(1000, Max(u.dscale, 10)) && s == Min(2000, Max(u.rscale, Max(34, d + 4)))
    ensures u.Canonical() && u.Value() >= 0 && e <= s
    ensures Root(u) == if v == 0 then Encode(0, s + 8, d) else Encode(Abs(v) * Pow10(s - e), s, d)
  {
    SquareValue(p, u, v);
    RootOfValue(u, v * v, v, e, d, s);
  }

  // ---------- dividing a product by a factor ----------

  lemma QuotientExact(x: nat, y: nat, e: nat, f: nat, s: nat)
    requires y > 0 && e <= s
    ensures Quotient(x * y, e + f, y, f, s) == x * Pow10(s - e)
  {
    var k := Pow10(s - e);
    MulAssoc(x, y, k);
    MulAssoc(x, k, y);
    RoundDivExact(x * k, y);
  }

  lemma ProductMultiple(x: nat, y: nat, e: nat, s: nat, b: nat)
    requires e <= s && b == y * Pow10(e)
    ensures x * y * Pow10(s) == x * Pow10(s - e) * b
  {
    Pow10Add(s - e, e);
    Regroup(x, Pow10(s - e), y, Pow10(e));
  }

  lemma NeverTenths(g: nat, b: nat)
    ensures !(2 * (g * b) >= b > 0 && 20 * (g * b) < 19 * b)
  {
    if g >= 1 { MulMono(1, g, b); }
  }

  lemma SignsOfProduct(x: int, y: int)
    ensures Abs(x * y) == Abs(x) * Abs(y) && (x != 0 && y != 0 ==> x * y != 0 && (x * y < 0 <==> (x < 0) != (y < 0)))
  {
    if x != 0 && y != 0 { MulMono(1, Abs(x), Abs(y)); }
  }

  /** A quotient that is a whole number g of units is not in the family that numeric_div misses. */
  lemma WholeNotMissed(u: Numeric, q: Numeric, a: nat, b: nat, s: nat, g: nat)
    requires AtCommon(u, q) == (a, b) && s == RatioScale(u, q) && a * Pow10(s) == g * b && b > 0
    ensures !RoundedDown(u, q)
  {
    NeverTenths(g, b);
  }

  lemma CommonOfProduct(u: Numeric, q: Numeric, a: nat, y: nat, e: nat)
    requires u.Canonical() && q.Canonical() && q.data != [] && u.rscale == e + q.rscale && Abs(u.Value()) == a
             && Abs(q.Value()) == y
    ensures AtCommon(u, q) == (a, y * Pow10(e)) && y * Pow10(e) > 0
  {
    CommonIs(q, q.rscale);
    IsUp(q.Magnitude(), y, q.rscale, u.rscale);
    MulMono(1, y, Pow10(e));
  }

  lemma ProductNotMissed(u: Numeric, q: Numeric, x: nat, y: nat, e: nat, s: nat, a: nat, b: nat)
    requires u.Canonical() && q.Canonical() && q.data != [] && s == RatioScale(u, q) && e <= s
    requires u.rscale == e + q.rscale && Abs(u.Value()) == a == x * y && Abs(q.Value()) == y && b == y * Pow10(e)
    ensures !RoundedDown(u, q)
  {
    CommonOfProduct(u, q, a, y, e);
    assert a * Pow10(s) == x * Pow10(s - e) * b by { ProductMultiple(x, y, e, s, b); }
    WholeNotMissed(u, q, a, b, s, x * Pow10(s - e));
  }

  lemma SignedMultiple(v: int, k: nat, neg: bool)
    requires v != 0 ==> (neg <==> v < 0)
    ensures WithSign(Abs(v) * k, neg) == v * k
  {
    NegScaled(v, k);
  }

  /** The sign of a quotient is that of the factor v. */
  lemma QuotientSign(u: Numeric, q: Numeric, v: int, y: int)
    requires u.Canonical() && q.Canonical() && q.data != [] && u.Value() == v * y && y == q.Value()
    ensures y != 0 && Abs(u.Value()) == Abs(v) * Abs(y) && (v != 0 ==> (u.sign != q.sign <==> v < 0))
  {
    TrimmedCanon(u);
    TrimmedCanon(q);
    SignsOfProduct(v, y);
  }

  lemma NotMissed(u: Numeric, q: Numeric, v: int, y: int, e: nat, s: nat)
    requires u.Canonical() && q.Canonical() && q.data != [] && s == RatioScale(u, q) && e <= s && y == q.Value()
    requires u.rscale == e + q.rscale && u.Value() == v * y
    ensures !RoundedDown(u, q)
  {
    var x, z := Abs(v), Abs(y);
    QuotientSign(u, q, v, y);
    ProductNotMissed(u, q, x, z, e, s, x * z, z * Pow10(e));
  }

  lemma RatioExact(u: Numeric, q: Numeric, v: int, y: int, e: nat, s: nat)
    requires u.Canonical() && q.Canonical() && q.data != [] && e <= s && y == q.Value()
    requires u.rscale == e + q.rscale && u.Value() == v * y
    ensures y != 0 && RoundedRatio(u, q, s) == v * Pow10(s - e)
  {
    QuotientSign(u, q, v, y);
    QuotientExact(Abs(v), Abs(y), e, q.rscale, s);
    SignedMultiple(v, Pow10(s - e), u.sign != q.sign);
  }

  lemma RatioAs(u: Numeric, q: Numeric, n: int, s: nat, d: int)
    requires q.Magnitude().Coef() > 0 && n == RatioUnits(u, q) && s == RatioScale(u, q)
             && d == DivDscale(u.dscale, q.dscale)
    ensures Ratio(u, q) == Encode(n, s, d)
  {}

  lemma DividesBack(u: Numeric, q: Numeric, v: int, y: int, e: nat, s: nat, d: int)
    requires u.Canonical() && q.Canonical() && q.data != [] && e <= s && y == q.Value()
    requires u.rscale == e + q.rscale && u.Value() == v * y && s == RatioScale(u, q)
             && d == DivDscale(u.dscale, q.dscale)
    ensures q.Magnitude().Coef() > 0 && Ratio(u, q) == Encode(v * Pow10(s - e), s, d)
  {
    assert !RoundedDown(u, q) by { NotMissed(u, q, v, y, e, s); }
    RatioRoundsIff(u, q);
    RatioExact(u, q, v, y, e, s);
    RatioAs(u, q, v * Pow10(s - e), s, d);
  }

  lemma ScaleReaches(u: Numeric, q: Numeric, e: nat, s: nat)
    requires u.rscale == e + q.rscale && e <= NUMERIC_MAX_RESULT_SCALE && s == RatioScale(u, q)
    ensures e <= s
  {}

  lemma ProductAs(p: Numeric, q: Numeric, u: Numeric, v: int, y: int, e: nat)
    requires ProductFits(p, q) && u == Product(p, q) && v == p.Value() && y == q.Value() && e == p.rscale
    ensures u.Canonical() && u.Value() == v * y && u.rscale == e + q.rscale
  {
    ProductIs(p, q);
  }

  /** numeric_div(numeric_mul(p, q), q) is p, at the scales s and d that numeric_div chooses. */
  lemma RatioOfProduct(p: Numeric, q: Numeric, u: Numeric, v: int, e: nat, s: nat, d: int)
    requires ProductFits(p, q) && u == Product(p, q) && q.data != [] && e <= NUMERIC_MAX_RESULT_SCALE
    requires v == p.Value() && e == p.rscale && s == Min(2000, Max(u.rscale + q.rscale, Max(d + 4, 34)))
    requires d == Min(1000, Max(u.dscale + q.dscale, 10))
    ensures u.Canonical() && q.Magnitude().Coef() > 0 && e <= s && Ratio(u, q) == Encode(v * Pow10(s - e), s, d)
  {
    ProductAs(p, q, u, v, q.Value(), e);
    RatioScales(u, q, u.dscale + q.dscale);
    ScaleReaches(u, q, e, s);
    DividesBack(u, q, v, q.Value(), e, s, d);
  }
}
