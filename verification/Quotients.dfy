/** numeric_div: scale selection, correct rounding, and the one family of operands it misses. */
module Quotients {
  import opened Decimal
  import opened Magnitudes
  import opened Variables
  import opened Division
  import opened Packed
  import opened Arithmetic

  const NUMERIC_MAX_PRECISION := 1000
  const NUMERIC_MIN_DISPLAY_SCALE := 10
  const NUMERIC_MAX_DISPLAY_SCALE := NUMERIC_MAX_PRECISION
  const NUMERIC_MIN_RESULT_SCALE := 34
  const NUMERIC_MAX_RESULT_SCALE := 2 * NUMERIC_MAX_PRECISION

  function DivDscale(d1: int, d2: int): int
  {
    Min(Max(d1 + d2, NUMERIC_MIN_DISPLAY_SCALE), NUMERIC_MAX_DISPLAY_SCALE)
  }

  function DivRscale(r1: int, r2: int, dscale: int): int
  {
    Min(Max(Max(r1 + r2, dscale + 4), NUMERIC_MIN_RESULT_SCALE), NUMERIC_MAX_RESULT_SCALE)
  }

  method SelectDivScale(var1: NumericVar, var2: NumericVar) returns (resDscale: int, globalRscale: int)
    ensures resDscale == DivDscale(var1.dscale, var2.dscale)
    ensures globalRscale == DivRscale(var1.rscale, var2.rscale, resDscale)
    ensures var d := var1.dscale + var2.dscale; resDscale == if d < 10 then 10 else if d > 1000 then 1000 else d
    ensures globalRscale == Min(2000, Max(var1.rscale + var2.rscale, Max(resDscale + 4, 34)))
  {
    resDscale := var1.dscale + var2.dscale;
    resDscale := Max(resDscale, NUMERIC_MIN_DISPLAY_SCALE);
    resDscale := Min(resDscale, NUMERIC_MAX_DISPLAY_SCALE);
    globalRscale := var1.rscale + var2.rscale;
    globalRscale := Max(globalRscale, resDscale + 4);
    globalRscale := Max(globalRscale, NUMERIC_MIN_RESULT_SCALE);
    globalRscale := Min(globalRscale, NUMERIC_MAX_RESULT_SCALE);
  }

  /** The result scale numeric_div chooses. */
  function RatioScale(p: Numeric, q: Numeric): nat
  {
    DivRscale(p.rscale, q.rscale, DivDscale(p.dscale, q.dscale))
  }

  /** The display scale is 10, 1000 or the sum of the operands'; the result scale is 2000, or the largest of the sum of
      the operands', four places more than are displayed, and 34. */
  lemma RatioScales(p: Numeric, q: Numeric, d: int)
    requires d == p.dscale + q.dscale
    ensures DivDscale(p.dscale, q.dscale) == if d < 10 then 10 else if d > 1000 then 1000 else d
    ensures RatioScale(p, q) == Min(2000, Max(p.rscale + q.rscale, Max(DivDscale(p.dscale, q.dscale) + 4, 34)))
  {}

  lemma CanonicalCoef(q: Numeric)
    requires q.Canonical() && q.data != []
    ensures q.Magnitude().Coef() > 0 && q.Magnitude().digits != [] && q.Magnitude().digits[0] != 0
  {
    NonZero(q.Magnitude());
  }

  /** The quotient as div_var computes it, in units of 10^-QuotientScale. */
  function SignedQuotientOf(p: Numeric, q: Numeric, s: int): int
    requires q.Magnitude().Coef() > 0
  {
    WithSign(QuotientOf(p.Magnitude(), q.Magnitude(), QuotientScale(p.Magnitude(), q.Magnitude(), s)), p.sign != q.sign)
  }

  /** The number numeric_div stores: that quotient cut off at the result scale. */
  function RatioUnits(p: Numeric, q: Numeric): int
    requires q.Magnitude().Coef() > 0
  {
    var s := RatioScale(p, q);
    CutSigned(SignedQuotientOf(p, q, s), QuotientScale(p.Magnitude(), q.Magnitude(), s) - s)
  }

  /** What numeric_div returns for a non-zero divisor. */
  function Ratio(p: Numeric, q: Numeric): Numeric
    requires q.Magnitude().Coef() > 0
  {
    Encode(RatioUnits(p, q), RatioScale(p, q), DivDscale(p.dscale, q.dscale))
  }

  method NumericDiv(num1: Numeric, num2: Numeric, globalRscale0: int)
    returns (res: Numeric, globalRscale: int, ex: DecimalException)
    requires Stored(num1) && Stored(num2)
    ensures IsNaN(num1) || IsNaN(num2) ==>
              res == Numeric(0, 0, NaN, 0, []) && ex == NoError && globalRscale == globalRscale0
    ensures !IsNaN(num1) && !IsNaN(num2) ==>
              var d := num1.dscale + num2.dscale;
              var resDscale := if d < 10 then 10 else if d > 1000 then 1000 else d;
              && globalRscale == Min(2000, Max(num1.rscale + num2.rscale, Max(resDscale + 4, 34)))
              && (num2.data == [] ==> res == Numeric(0, 0, NaN, 0, []) && ex == DivideByZero)
              && (num2.data != [] ==> ex == NoError && num2.Magnitude().Coef() > 0 && res == Ratio(num1, num2)
                                      && res.rscale == globalRscale && res.dscale == resDscale)
  {
    if IsNaN(num1) || IsNaN(num2) { return NUMERIC_NAN, globalRscale0, NoError; }
    RatioScales(num1, num2, num1.dscale + num2.dscale);
    var result, resDscale;
    result, resDscale, globalRscale, ex := DivUnpacked(num1, num2);
    if ex != NoError {
      res := NUMERIC_NAN;
    } else {
      res := PackRatio(result, num1, num2, resDscale, globalRscale);
    }
  }

  method PackRatio(result: NumericVar, ghost num1: Numeric, ghost num2: Numeric, resDscale: int, ghost s: int)
    returns (res: Numeric)
    requires num2.Magnitude().Coef() > 0 && s == RatioScale(num1, num2)
             && resDscale == DivDscale(num1.dscale, num2.dscale)
    requires result.rscale == s
    requires result.Holds(SignedQuotientOf(num1, num2, s), QuotientScale(num1.Magnitude(), num2.Magnitude(), s))
    modifies result
    ensures res == Ratio(num1, num2)
  {
    ghost var n, t := SignedQuotientOf(num1, num2, s), QuotientScale(num1.Magnitude(), num2.Magnitude(), s);
    result.SetDscale(resDscale, n, t);
    res := PackCut(result, n, t, s, resDscale);
  }

  method DivUnpacked(num1: Numeric, num2: Numeric)
    returns (result: NumericVar, resDscale: int, globalRscale: int, ex: DecimalException)
    requires num1.Canonical() && num2.Canonical()
    ensures fresh(result) && resDscale == DivDscale(num1.dscale, num2.dscale) && globalRscale == RatioScale(num1, num2)
    ensures num2.data == [] ==> ex == DivideByZero
    ensures num2.data != [] ==> ex == NoError && num2.Magnitude().Coef() > 0 && result.rscale == globalRscale
    ensures num2.data != [] ==> result.Holds(SignedQuotientOf(num1, num2, globalRscale),
                                             QuotientScale(num1.Magnitude(), num2.Magnitude(), globalRscale))
  {
    var arg1, arg2;
    arg1, arg2, result := UnpackBoth(num1, num2);
    resDscale, globalRscale := SelectDivScale(arg1, arg2);
    ghost var q, t := 0, QuotientScale(num1.Magnitude(), num2.Magnitude(), globalRscale);
    if num2.data != [] {
      CanonicalCoef(num2);
      q := QuotientOf(num1.Magnitude(), num2.Magnitude(), t);
    }
    ex := Divide(arg1, arg2, result, globalRscale, q, t);
  }

  // ---------- correct rounding ----------

  /** p / q rounded half away from zero to s decimals, in units of 10^-s. */
  function RoundedRatio(p: Numeric, q: Numeric, s: int): int
    requires q.Value() != 0
  {
    WithSign(Quotient(Abs(p.Value()), p.rscale, Abs(q.Value()), q.rscale, s), p.sign != q.sign)
  }

  /** Both operands as whole numbers at one scale. */
  function AtCommon(p: Numeric, q: Numeric): (nat, nat)
  {
    var c := Max(p.rscale, q.rscale);
    (p.Magnitude().At(c), q.Magnitude().At(c))
  }

  /** The divisor reaches one digit past the result scale above the dividend, and the quotient is
      at least half but less than 0.95 of the last place. */
  ghost predicate RoundedDown(p: Numeric, q: Numeric)
  {
    var s := RatioScale(p, q);
    var (a, b) := AtCommon(p, q);
    q.weight - p.weight == s + 1 && 2 * (a * Pow10(s)) >= b && 20 * (a * Pow10(s)) < 19 * b
  }

  lemma CommonIs(p: Numeric, c: int)
    requires p.Canonical() && p.rscale <= c
    ensures p.Magnitude().Is(p.Magnitude().At(c), c)
    ensures p.data != [] ==> p.Magnitude().At(c) > 0 && Abs(p.Value()) > 0
  {
    TrimmedCanon(p);
    IsUp(p.Magnitude(), p.Magnitude().At(p.rscale), p.rscale, c);
    if p.data != [] { MulMono(1, p.Magnitude().At(p.rscale), Pow10(c - p.rscale)); }
  }

  lemma QuotientAtCommon(p: Numeric, q: Numeric, a: nat, b: nat, t: nat)
    requires p.Canonical() && q.Canonical() && q.data != [] && AtCommon(p, q) == (a, b)
    ensures q.Magnitude().Coef() > 0 && b > 0
            && QuotientOf(p.Magnitude(), q.Magnitude(), t) == RoundDiv(a * Pow10(t), b)
  {
    var c := Max(p.rscale, q.rscale);
    CanonicalCoef(q);
    CommonIs(p, c);
    CommonIs(q, c);
    QuotientIs(p.Magnitude(), a, c, q.Magnitude(), b, c, t);
  }

  lemma QuotientAtOwn(p: Numeric, q: Numeric, t: int)
    requires p.Canonical() && q.Canonical() && q.data != []
    ensures q.Magnitude().Coef() > 0 && q.Value() != 0
    ensures RoundedRatio(p, q, t) == WithSign(QuotientOf(p.Magnitude(), q.Magnitude(), t), p.sign != q.sign)
  {
    CanonicalCoef(q);
    CommonIs(q, q.rscale);
    QuotientIs(p.Magnitude(), p.Magnitude().At(p.rscale), p.rscale,
               q.Magnitude(), q.Magnitude().At(q.rscale), q.rscale, t);
  }

  /** A dividend so far below the divisor has a quotient below ten units of 10^-t. */
  lemma SmallQuotient(p: Numeric, q: Numeric, a: nat, b: nat, t: nat)
    requires p.Canonical() && q.Canonical() && q.data != [] && t == q.weight - p.weight && AtCommon(p, q) == (a, b)
    ensures a * Pow10(t) < 10 * b
  {
    var c := Max(p.rscale, q.rscale);
    CanonicalCoef(q);
    assert q.weight + c + 1 > 0 && DigitAt(q.Magnitude().digits, 0) != 0;
    LeadBound(q.Magnitude().digits, q.weight + c + 1);
    if p.weight + c + 1 > 0 {
      PrefixBound(p.Magnitude().digits, p.weight + c + 1);
      Pow10Add(p.weight + c + 1, t);
      ProductBelow(a, Pow10(p.weight + c + 1), Pow10(t));
    }
  }

  lemma ProductBelow(a: nat, x: nat, k: nat)
    requires a < x && k > 0
    ensures a * k < x * k
  {
    MulMono(a + 1, x, k);
    Distribute(a, 1, k);
  }

  /** Cutting a finer rounding of y / (10^k b), less than one unit, against rounding it at once. */
  lemma CutOfFiner(y: nat, b: nat, k: nat, z: nat)
    requires b > 0 && k >= 1 && z * Pow10(k) == y && y < 10 * b
    ensures (Cut(RoundDiv(y, b), k) == RoundDiv(z, b)) <==> !(k == 1 && 2 * z >= b && 20 * z < 19 * b)
  {
    if k == 1 {
      CutOfTenth(y, b, z);
    } else {
      Pow10Mono(2, k);
      CutToNothing(y, b, k, z, Pow10(k));
    }
  }

  lemma CutOfTenth(y: nat, b: nat, z: nat)
    requires b > 0 && z * Pow10(1) == y && y < 10 * b
    ensures (Cut(RoundDiv(y, b), 1) == RoundDiv(z, b)) <==> !(2 * z >= b && 20 * z < 19 * b)
  {
    var f := RoundDiv(y, b);
    assert Pow10(1) == 10 && y == 10 * z;
    RoundSmall(y, b);
    RoundSmall(z, b);
    DivUnique(f, 10, if f == 10 then 1 else 0, if f == 10 then 0 else f);
  }

  lemma CutToNothing(y: nat, b: nat, k: nat, z: nat, u: nat)
    requires b > 0 && k >= 2 && u == Pow10(k) >= 10 * Pow10(1) && z * u == y && y < 10 * b
    ensures Cut(RoundDiv(y, b), k) == 0 && RoundDiv(z, b) == 0
  {
    var f := RoundDiv(y, b);
    RoundSmall(y, b);
    MulMono(100, u, z);
    assert 100 * z <= y;
    RoundSmall(z, b);
    DivUnique(f, u, 0, f);
  }

  /** Rounded quotients up to ten, read off by comparison. */
  lemma RoundSmall(y: nat, b: nat)
    requires b > 0 && y < 10 * b
    ensures RoundDiv(y, b) <= 10
    ensures RoundDiv(y, b) == 10 <==> 2 * y + b >= 20 * b
    ensures RoundDiv(y, b) == 0 <==> 2 * y < b
    ensures y < b ==> RoundDiv(y, b) <= 1
  {
    var f, r := (2 * y + b) / (2 * b), (2 * y + b) % (2 * b);
    assert 2 * y + b == f * (2 * b) + r;
    if f >= 11 { MulMono(11, f, 2 * b); assert false; }
    if f == 10 { assert f * (2 * b) == 20 * b; } else { MulMono(f, 9, 2 * b); }
    if f >= 1 { MulMono(1, f, 2 * b); }
    if f >= 2 { MulMono(2, f, 2 * b); }
  }

  /** The choice of t, and cutting at s, against rounding at s. */
  lemma CutQuotient(x: nat, y: nat, b: nat, s: nat, t: nat, w: int, g: nat, f: nat)
    requires b > 0 && t == Max(s, w) && y == x * Pow10(t - s) && (w > s ==> y < 10 * b) && g == RoundDiv(x, b)
             && f == RoundDiv(y, b)
    ensures Cut(f, t - s) == g <==> !(w == s + 1 && 2 * x >= b && 20 * x < 19 * b)
  {
    if t == s {
      assert f * Pow10(0) == f;
    } else {
      CutOfFiner(y, b, t - s, x);
    }
  }

  lemma Finer(a: nat, s: nat, t: nat)
    requires s <= t
    ensures a * Pow10(t) == a * Pow10(s) * Pow10(t - s)
  {
    Pow10Add(s, t - s);
    MulAssoc(a, Pow10(s), Pow10(t - s));
  }

  /** The dividend in units of 10^-t at the common scale, t being the finer of s and w. */
  lemma FinerDividend(p: Numeric, q: Numeric, a: nat, b: nat, s: nat, t: nat, w: int, x: nat, y: nat)
    requires p.Canonical() && q.Canonical() && q.data != [] && AtCommon(p, q) == (a, b) && w == q.weight - p.weight
             && t == Max(s, w)
    requires x == a * Pow10(s) && y == a * Pow10(t)
    ensures y == x * Pow10(t - s) && (w > s ==> y < 10 * b)
  {
    Finer(a, s, t);
    if w > s { SmallQuotient(p, q, a, b, t); }
  }

  /** The quotient f of div_var, cut off at the result scale s, against the correctly rounded g. */
  lemma RoundsAt(p: Numeric, q: Numeric, a: nat, b: nat, s: nat, t: nat, w: int, x: nat, y: nat, g: nat, f: nat)
    requires p.Canonical() && q.Canonical() && q.data != [] && AtCommon(p, q) == (a, b) && w == q.weight - p.weight
             && t == Max(s, w)
    requires q.Magnitude().Coef() > 0 && x == a * Pow10(s) && y == a * Pow10(t)
    requires g == QuotientOf(p.Magnitude(), q.Magnitude(), s) && f == QuotientOf(p.Magnitude(), q.Magnitude(), t)
    ensures Cut(f, t - s) == g <==> !(w == s + 1 && 2 * x >= b && 20 * x < 19 * b)
  {
    assert b > 0 && g == RoundDiv(x, b) by { QuotientAtCommon(p, q, a, b, s); }
    assert f == RoundDiv(y, b) by { QuotientAtCommon(p, q, a, b, t); }
    FinerDividend(p, q, a, b, s, t, w, x, y);
    CutQuotient(x, y, b, s, t, w, g, f);
  }

  lemma SameSigns(f: nat, g: nat, k: int, neg: bool)
    ensures CutSigned(WithSign(f, neg), k) == WithSign(g, neg) <==> Cut(f, k) == g
  {
    CutZero(k);
  }

  /** numeric_div rounds correctly at its result scale for all operands but one family. */
  lemma RatioRoundsIff(p: Numeric, q: Numeric)
    requires p.Canonical() && q.Canonical() && q.data != []
    ensures q.Magnitude().Coef() > 0 && q.Value() != 0
    ensures RatioUnits(p, q) == RoundedRatio(p, q, RatioScale(p, q)) <==> !RoundedDown(p, q)
  {
    var s := RatioScale(p, q);
    var t := QuotientScale(p.Magnitude(), q.Magnitude(), s);
    CanonicalCoef(q);
    QuotientAtOwn(p, q, s);
    RatioIff(p, q, AtCommon(p, q).0, AtCommon(p, q).1, s, t, QuotientOf(p.Magnitude(), q.Magnitude(), s),
             QuotientOf(p.Magnitude(), q.Magnitude(), t), RatioUnits(p, q), RoundedRatio(p, q, s));
  }

  lemma RatioIff(p: Numeric, q: Numeric, a: nat, b: nat, s: nat, t: int, g: nat, f: nat, u: int, v: int)
    requires p.Canonical() && q.Canonical() && q.data != [] && AtCommon(p, q) == (a, b) && q.Magnitude().Coef() > 0
    requires s == RatioScale(p, q) && t == QuotientScale(p.Magnitude(), q.Magnitude(), s)
    requires g == QuotientOf(p.Magnitude(), q.Magnitude(), s) && f == QuotientOf(p.Magnitude(), q.Magnitude(), t)
    requires u == CutSigned(WithSign(f, p.sign != q.sign), t - s) && v == WithSign(g, p.sign != q.sign)
    ensures u == v <==> !RoundedDown(p, q)
  {
    assert RoundedDown(p, q) <==>
             q.weight - p.weight == s + 1 && 2 * (a * Pow10(s)) >= b && 20 * (a * Pow10(s)) < 19 * b;
    RoundsAt(p, q, a, b, s, t, q.weight - p.weight, a * Pow10(s), a * Pow10(t), g, f);
    SameSigns(f, g, t - s, p.sign != q.sign);
  }

  lemma RatioHeld(p: Numeric, q: Numeric, s: nat, g: nat, u: int)
    requires p.Canonical() && q.Canonical() && q.data != [] && s == RatioScale(p, q) && !RoundedDown(p, q)
    requires q.Magnitude().Coef() > 0 && u == RatioUnits(p, q) && g == QuotientOf(p.Magnitude(), q.Magnitude(), s)
    ensures u == WithSign(g, p.sign != q.sign)
  {
    RatioRoundsIff(p, q);
    QuotientAtOwn(p, q, s);
  }

  lemma SignedRounds(x: nat, b: nat, g: nat, neg: bool, u: int)
    requires b > 0 && g == RoundDiv(x, b) && u == WithSign(g, neg)
    ensures -(b as int) <= 2 * (x - Abs(u) * b) < b && (u > 0 ==> !neg) && (u < 0 ==> neg)
  {
    RoundDivBounds(x, b);
    assert Abs(u) == g;
    assert 2 * (x - g * b) == 2 * x - 2 * (g * b);
  }

  /** Outside that family the stored quotient u, in units of 10^-s, is the multiple of 10^-s nearest to a / b, the one
      further from zero on a tie, and above zero only for operands of one sign. */
  lemma RatioNearest(p: Numeric, q: Numeric, a: nat, b: nat, s: nat, x: nat, u: int)
    requires p.Canonical() && q.Canonical() && q.data != [] && AtCommon(p, q) == (a, b) && s == RatioScale(p, q)
    requires q.Magnitude().Coef() > 0 && u == RatioUnits(p, q) && x == a * Pow10(s) && !RoundedDown(p, q)
    ensures -(b as int) <= 2 * (x - Abs(u) * b) < b
    ensures (u > 0 ==> p.sign == q.sign) && (u < 0 ==> p.sign != q.sign)
  {
    var g := QuotientOf(p.Magnitude(), q.Magnitude(), s);
    QuotientAtCommon(p, q, a, b, s);
    RatioHeld(p, q, s, g, u);
    SignedRounds(x, b, g, p.sign != q.sign, u);
  }

  lemma RatioRounds(p: Numeric, q: Numeric, d: int, s: int)
    requires p.Canonical() && q.Canonical() && q.data != [] && q.weight - p.weight <= s
    requires d == Min(1000, Max(p.dscale + q.dscale, 10)) && s == Min(2000, Max(p.rscale + q.rscale, Max(d + 4, 34)))
    ensures q.Magnitude().Coef() > 0 && q.Value() != 0 && Ratio(p, q) == Encode(RoundedRatio(p, q, s), s, d)
  {
    RatioScales(p, q, p.dscale + q.dscale);
    RatioRoundsIff(p, q);
  }

  /** 0.6 of the last place: computed as 6 one place further down, and cut off to nothing. */
  lemma SixTenths(x: nat, y: nat, b: nat)
    requires b > 0 && y == 10 * x == 6 * b
    ensures RoundDiv(y, b) == 6 && RoundDiv(x, b) == 1 && Cut(6, 1) == 0
  {
    RoundDivExact(6, b);
    RoundSmall(x, b);
    assert Pow10(1) == 10;
  }

  lemma MissUnits(p: Numeric, q: Numeric, a: nat, b: nat, s: nat)
    requires p.Canonical() && q.Canonical() && q.data != [] && p.sign == q.sign && AtCommon(p, q) == (a, b)
    requires s == RatioScale(p, q) && q.weight - p.weight == s + 1 && a * Pow10(s + 1) == 10 * (a * Pow10(s)) == 6 * b
    ensures q.Magnitude().Coef() > 0 && q.Value() != 0 && RatioUnits(p, q) == 0 && RoundedRatio(p, q, s) == 1
  {
    var t := QuotientScale(p.Magnitude(), q.Magnitude(), s);
    QuotientAtCommon(p, q, a, b, s);
    QuotientAtCommon(p, q, a, b, t);
    SixTenths(a * Pow10(s), a * Pow10(t), b);
    QuotientAtOwn(p, q, s);
  }

  /** The missed family is not empty: 6*10^w / 10^(w+35) is 0.6 of the last of 34 places, yet gives zero. */
  lemma RatioMiss(w: nat, p: Numeric, q: Numeric)
    requires w + 35 < 0x8000 && p == Numeric(w, 0, Pos, 0, [DigitPair(6, 0)])
             && q == Numeric(w + 35, 0, Pos, 0, [DigitPair(1, 0)])
    ensures p.Canonical() && q.Canonical() && q.data != [] && RatioScale(p, q) == 34 && RoundedDown(p, q)
    ensures q.Magnitude().Coef() > 0 && q.Value() != 0 && RatioUnits(p, q) == 0 && RoundedRatio(p, q, 34) == 1
  {
    LoneDigit(6, w);
    LoneDigit(1, w + 35);
    MissPowers(w);
    MissUnits(p, q, 6 * Pow10(w), Pow10(w + 35), 34);
  }

  lemma MissPowers(w: nat)
    ensures 6 * Pow10(w) * Pow10(35) == 10 * (6 * Pow10(w) * Pow10(34)) == 6 * Pow10(w + 35)
  {
    Pow10Add(w, 34);
    MulAssoc(6, Pow10(w), Pow10(34));
    assert Pow10(35) == 10 * Pow10(34) && Pow10(w + 35) == 10 * Pow10(w + 34);
    TenIn(6 * Pow10(w), Pow10(34));
  }

  /** The integer x * 10^w as stored. */
  lemma LoneDigit(x: digit, w: nat)
    requires x != 0 && w < 0x8000
    ensures var p := Numeric(w, 0, Pos, 0, [DigitPair(x, 0)]);
            p.Canonical() && p.Magnitude().At(0) == x as int * Pow10(w)
  {
    var d := Unpack([DigitPair(x, 0)]);
    assert d == [x, 0];
    assert Prefix(d, 1) == 10 * Prefix(d, 0) + DigitAt(d, 0) as int;
    PrefixZeros(d, 1, w);
  }
}
