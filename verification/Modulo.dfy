/** numeric_mod: x - y * trunc(x / y), with a quotient that was rounded before it is truncated. */
module Modulo {
  import opened Decimal
  import opened Magnitudes
  import opened Variables
  import opened AddSub
  import opened Multiplication
  import opened Division
  import opened Packed
  import opened Arithmetic
  import opened Quotients

  /** The whole number numeric_mod takes out of x / y, by magnitude. */
  function WholeQuotient(a: Mag, b: Mag, s: int): nat
    requires b.Coef() > 0
  {
    var t := QuotientScale(a, b, s);
    Cut(QuotientOf(a, b, t), t)
  }

  /** trunc() of mod_var: forget the digits to the right of the decimal point. */
  method ForgetFraction(tmp: NumericVar, ghost q: nat, ghost t: int)
    requires tmp.Valid() && tmp.Magnitude().Is(q, t)
    modifies tmp`ndigits
    ensures tmp.Valid() && tmp.Magnitude().Is(Cut(q, t), 0)
  {
    ghost var m := tmp.Magnitude();
    tmp.ndigits := Max(0, Min(tmp.ndigits, tmp.weight + 1));
    KeptDigits(m, 0, tmp.ndigits);
    AtCut(m, q, t, 0);
    assert tmp.Magnitude() == Mag(m.digits[..tmp.ndigits], m.weight);
  }

  /** The whole quotient multiplied back, in units of 10^-(r2+s). */
  function Back(m: nat, whole: nat, s: nat): nat { m * (whole * Pow10(s)) }

  /** mul_var into its second operand, at the scale of what mod_var takes off. */
  method MultiplyInto(var2: NumericVar, ghost b: Mag, tmp: NumericVar, ghost w: Mag, r: int, ghost p: nat, ghost e: int)
    requires var2.Valid() && var2.sign != NaN && b == var2.Magnitude() && var2 != tmp
    requires tmp.Valid() && tmp.sign != NaN && w == tmp.Magnitude() && p == ProductOf(b, w, r)
             && e == ProductScale(b, w, r)
    modifies tmp
    ensures tmp.Valid() && tmp.sign != NaN && tmp.rscale == r && tmp.dscale == old(tmp.dscale)
            && tmp.Magnitude().Exactly(p, e)
    ensures p > 0 ==> tmp.sign == if var2.sign == old(tmp.sign) then Pos else Neg
  {
    MulVar(var2, tmp, tmp, r);
  }

  lemma BackIs(b: Mag, m: nat, r2: int, w: Mag, whole: nat, s: nat, v: Mag)
    requires b.Is(m, r2) && w.Is(whole, 0) && v.Exactly(ProductOf(b, w, r2 + s), ProductScale(b, w, r2 + s))
    ensures v.Is(Back(m, whole, s), r2 + s)
    ensures Back(m, whole, s) > 0 ==> ProductOf(b, w, r2 + s) > 0
  {
    IsUp(w, whole, 0, s);
    ProductStands(b, w, m, r2, whole * Pow10(s), s, v);
    if ProductOf(b, w, r2 + s) == 0 {
      StrippedSize(v, 0, ProductScale(b, w, r2 + s));
      AllZero(v, r2 + s);
    }
  }

  /** The multiplication of mod_var, which loses nothing: the divisor fits its scale and tmp is whole. */
  method MultiplyBack(var2: NumericVar, ghost b: Mag, ghost m: nat, tmp: NumericVar, ghost whole: nat, s: nat,
                      ghost back: nat)
    requires var2.Valid() && var2.sign != NaN && b == var2.Magnitude() && b.Is(m, var2.rscale) && var2 != tmp
    requires tmp.Valid() && tmp.sign != NaN && tmp.Magnitude().Is(whole, 0) && back == Back(m, whole, s)
    modifies tmp
    ensures tmp.Valid() && tmp.sign != NaN && tmp.Magnitude().Is(back, var2.rscale + s)
    ensures tmp.rscale == var2.rscale + s && tmp.dscale == old(tmp.dscale)
    ensures back > 0 ==> tmp.sign == if var2.sign == old(tmp.sign) then Pos else Neg
  {
    ghost var w, r := tmp.Magnitude(), var2.rscale + s;
    MultiplyInto(var2, b, tmp, w, var2.rscale + s, ProductOf(b, w, r), ProductScale(b, w, r));
    BackIs(b, m, var2.rscale, w, whole, s, tmp.Magnitude());
  }

  /** The part of x that is taken off, at a scale r fine enough for it. */
  lemma TakenOff(v: Mag, m: nat, r2: int, whole: nat, s: nat, r: int)
    requires v.Is(Back(m, whole, s), r2 + s) && r2 + s <= r
    ensures v.Is(m * Pow10(r - r2) * whole, r)
  {
    IsUp(v, m * (whole * Pow10(s)), r2 + s, r);
    Pow10Add(s, r - r2 - s);
    TakenAlgebra(m, whole, Pow10(s), Pow10(r - r2 - s));
  }

  lemma TakenAlgebra(m: int, w: int, x: int, y: int)
    ensures m * (w * x) * y == m * (x * y) * w
  {
    MulAssoc(m, w * x, y);
    MulAssoc(w, x, y);
    MulAssoc(m, x * y, w);
  }

  /** What mod_var leaves, in units of 10^-r: the remainder of the magnitudes, with the dividend's sign. */
  function Left(n: nat, r1: int, m: nat, r2: int, whole: nat, r: int, negative: bool): int
    requires r1 <= r && r2 <= r
  {
    WithSign(n * Pow10(r - r1) - m * Pow10(r - r2) * whole, negative)
  }

  lemma LeftIs(v: NumericVar, n: nat, r1: int, tmp: NumericVar, m: nat, r2: int, whole: nat, s: nat, r: int, back: nat)
    requires v.Valid() && v.sign != NaN && v.Magnitude().Is(n, r1) && r1 <= r && r2 + s <= r
    requires tmp.Valid() && tmp.sign != NaN && back == Back(m, whole, s) && tmp.Magnitude().Is(back, r2 + s)
    requires back > 0 ==> tmp.sign == v.sign
    ensures v.Signed(r) - tmp.Signed(r) == Left(n, r1, m, r2, whole, r, v.sign == Neg)
  {
    IsUp(v.Magnitude(), n, r1, r);
    TakenOff(tmp.Magnitude(), m, r2, whole, s, r);
    IsUp(tmp.Magnitude(), back, r2 + s, r);
    var x := m * Pow10(r - r2) * whole;
    assert x == back * Pow10(r - r2 - s);
    if back == 0 { assert x == 0; }
  }

  /** The quotient of mod_var, truncated and multiplied back. */
  method Whole(var1: NumericVar, var2: NumericVar, ghost b: Mag, ghost m: nat, tmp: NumericVar, s: nat,
               ghost q: nat, ghost t: int, ghost whole: nat, ghost back: nat)
    requires var1.Valid() && var2.Valid() && var1.sign != NaN && var2.sign != NaN && tmp !in {var1, var2}
    requires b == var2.Magnitude() && b.Is(m, var2.rscale)
    requires whole == Cut(q, t) && tmp.Holds(if var1.sign == var2.sign then q as int else -(q as int), t)
    requires back == Back(m, whole, s)
    modifies tmp
    ensures tmp.Valid() && tmp.sign != NaN && tmp.Magnitude().Is(back, var2.rscale + s)
    ensures tmp.rscale == var2.rscale + s && tmp.dscale == old(tmp.dscale)
    ensures back > 0 ==> tmp.sign == var1.sign
  {
    ForgetFraction(tmp, q, t);
    MultiplyBack(var2, b, m, tmp, whole, s, back);
    SignOfTaken(q, t, m, whole, s);
  }

  /** The display scale mod_var leaves: that of the operands, read after the subtraction, which has set it
      to the larger of the dividend's and the quotient's if result is an operand. */
  function ModDscale(d1: int, d2: int, quotient: int, first: bool, second: bool): int
  {
    Max(if first then Max(d1, quotient) else d1, if second then Max(d1, quotient) else d2)
  }

  /** The subtraction of mod_var, and the display scale it sets. */
  method Subtract(var1: NumericVar, var2: NumericVar, tmp: NumericVar, result: NumericVar, ghost r: int,
                  ghost left: int)
    requires var1.Valid() && tmp.Valid() && var1.sign != NaN && tmp.sign != NaN && tmp !in {var1, var2, result}
    requires r == Max(var1.rscale, tmp.rscale) && left == var1.Signed(r) - tmp.Signed(r)
    modifies result
    ensures result.rscale == r && result.Holds(left, r)
    ensures result.dscale == ModDscale(old(var1.dscale), old(var2.dscale), old(tmp.dscale), result == var1,
                                       result == var2)
  {
    SubVar(var1, tmp, result);
    result.SetDscale(Max(var1.dscale, var2.dscale), left, r);
  }

  /** The division of mod_var, at the scales of numeric_div. */
  method ModQuotient(var1: NumericVar, var2: NumericVar, ghost s: int, ghost q: nat, ghost t: int)
    returns (tmp: NumericVar, divRscale: nat, ex: DecimalException)
    requires var1.Valid() && var2.Valid() && var1.sign != NaN && var2.sign != NaN
    requires s == DivRscale(var1.rscale, var2.rscale, DivDscale(var1.dscale, var2.dscale))
    requires t == QuotientScale(var1.Magnitude(), var2.Magnitude(), s)
    requires var2.ndigits > 0 ==> var2.Magnitude().digits[0] != 0 && var2.Magnitude().Coef() > 0
                                  && q == QuotientOf(var1.Magnitude(), var2.Magnitude(), t)
    ensures fresh(tmp) && divRscale == s && ex == if var2.ndigits == 0 then DivideByZero else NoError
    ensures ex == NoError ==> tmp.Holds(if var1.sign == var2.sign then q as int else -(q as int), t)
    ensures ex == NoError ==> tmp.dscale == DivDscale(var1.dscale, var2.dscale)
  {
    tmp := new NumericVar();
    var divDscale;
    divDscale, divRscale := SelectDivScale(var1, var2);
    ex := Divide(var1, var2, tmp, divRscale, q, t);
    if ex == NoError { tmp.SetDscale(divDscale, if var1.sign == var2.sign then q as int else -(q as int), t); }
  }

  /** mod_var, from operands that fit their own scales as unpacked numbers do: s and r are the scales of the
      division and of the result, q / 10^t is the rounded quotient, left what remains. */
  method ModVar(var1: NumericVar, ghost n: nat, var2: NumericVar, ghost m: nat, result: NumericVar, globalRscale0: int,
                ghost s: int, ghost r: int, ghost q: nat, ghost t: int, ghost left: int)
    returns (globalRscale: int, ex: DecimalException)
    requires var1.Valid() && var2.Valid() && var1.sign != NaN && var2.sign != NaN
    requires var1.Magnitude().Is(n, var1.rscale) && var2.Magnitude().Is(m, var2.rscale)
    requires s == Min(2000, Max(var1.rscale + var2.rscale,
                                Max(Min(1000, Max(var1.dscale + var2.dscale, 10)) + 4, 34)))
             && r == Max(var1.rscale, var2.rscale + s)
    requires t == QuotientScale(var1.Magnitude(), var2.Magnitude(), s)
    requires var2.ndigits > 0 ==> var2.Magnitude().digits[0] != 0 && var2.Magnitude().Coef() > 0
                                  && q == QuotientOf(var1.Magnitude(), var2.Magnitude(), t)
    requires r >= var1.rscale && r >= var2.rscale
             && left == Left(n, var1.rscale, m, var2.rscale, Cut(q, t), r, var1.sign == Neg)
    modifies result
    ensures ex == (if old(var2.ndigits) == 0 then DivideByZero else NoError)
    ensures globalRscale == if ex == NoError then globalRscale0 else s
    ensures ex != NoError ==> unchanged(result)
    ensures ex == NoError ==> result.rscale == r && result.Holds(left, r)
    ensures ex == NoError ==>
              var d1, d2 := old(var1.dscale), old(var2.dscale);
              var d := Min(1000, Max(d1 + d2, 10));
              result.dscale == if result == var2 then Max(d1, d) else if result == var1 then Max(Max(d1, d), d2)
                               else Max(d1, d2)
  {
    var tmp, divRscale;
    tmp, divRscale, ex := ModQuotient(var1, var2, s, q, t);
    globalRscale := divRscale;
    if ex == NoError {
      TakeWhole(var1, n, var2, m, tmp, divRscale, result, q, t, Cut(q, t), r, left);
      globalRscale := globalRscale0;
    }
  }

  /** mod_var after its division. */
  method TakeWhole(var1: NumericVar, ghost n: nat, var2: NumericVar, ghost m: nat, tmp: NumericVar, s: nat,
                   result: NumericVar, ghost q: nat, ghost t: int, ghost whole: nat, ghost r: int, ghost left: int)
    requires var1.Valid() && var2.Valid() && var1.sign != NaN && var2.sign != NaN
    requires tmp !in {var1, var2, result}
    requires var1.Magnitude().Is(n, var1.rscale) && var2.Magnitude().Is(m, var2.rscale)
    requires whole == Cut(q, t) && tmp.Holds(if var1.sign == var2.sign then q as int else -(q as int), t)
    requires r == Max(var1.rscale, var2.rscale + s) && r >= var2.rscale
    requires left == Left(n, var1.rscale, m, var2.rscale, whole, r, var1.sign == Neg)
    modifies tmp, result
    ensures result.rscale == r && result.Holds(left, r)
    ensures result.dscale == ModDscale(old(var1.dscale), old(var2.dscale), old(tmp.dscale), result == var1,
                                       result == var2)
  {
    ghost var back := Back(m, whole, s);
    Whole(var1, var2, var2.Magnitude(), m, tmp, s, q, t, whole, back);
    LeftIs(var1, n, var1.rscale, tmp, m, var2.rscale, whole, s, r, back);
    Subtract(var1, var2, tmp, result, r, left);
  }

  lemma SignOfTaken(q: nat, t: int, m: nat, whole: nat, s: nat)
    requires whole == Cut(q, t)
    ensures Back(m, whole, s) > 0 ==> q > 0
  {
    CutZero(t);
  }

  // ---------- numeric_mod ----------

  /** The scale of a remainder. */
  function RemainderScale(p: Numeric, q: Numeric): nat { Max(p.rscale, q.rscale + RatioScale(p, q)) }

  /** What numeric_mod stores for a non-zero divisor, in units of 10^-RemainderScale. */
  function RemainderUnits(p: Numeric, q: Numeric): int
    requires q.Magnitude().Coef() > 0
  {
    Left(Abs(p.Value()), p.rscale, Abs(q.Value()), q.rscale,
         WholeQuotient(p.Magnitude(), q.Magnitude(), RatioScale(p, q)),
         RemainderScale(p, q), p.sign == Neg)
  }

  method NumericMod(num1: Numeric, num2: Numeric, globalRscale0: int)
    returns (res: Numeric, globalRscale: int, ex: DecimalException)
    requires Stored(num1) && Stored(num2)
    ensures IsNaN(num1) || IsNaN(num2) ==>
              res == Numeric(0, 0, NaN, 0, []) && ex == NoError && globalRscale == globalRscale0
    ensures !IsNaN(num1) && !IsNaN(num2) ==>
              var d := Min(1000, Max(num1.dscale + num2.dscale, 10));
              var s := Min(2000, Max(num1.rscale + num2.rscale, Max(d + 4, 34)));
              && (num2.data == [] ==>
                    ex == DivideByZero && res == Numeric(0, 0, Pos, 0, []) && globalRscale == s)
              && (num2.data != [] ==>
                    && ex == NoError && globalRscale == globalRscale0 && num2.Magnitude().Coef() > 0
                    && res == Encode(RemainderUnits(num1, num2), Max(num1.rscale, num2.rscale + s),
                                     Max(num1.dscale, num2.dscale)))
  {
    if IsNaN(num1) || IsNaN(num2) { return NUMERIC_NAN, globalRscale0, NoError; }
    RatioScales(num1, num2, num1.dscale + num2.dscale);
    var result;
    ghost var r := RemainderScale(num1, num2);
    if num2.data == [] {
      result, globalRscale, ex := ModByZero(num1, num2, globalRscale0);
      res := PackExact(result, 0, 0, 0);
    } else {
      CanonicalCoef(num2);
      ghost var left := RemainderUnits(num1, num2);
      result, globalRscale, ex := ModUnpacked(num1, num2, globalRscale0, r, left);
      res := PackExact(result, left, r, Max(num1.dscale, num2.dscale));
    }
  }

  /** The error exit of numeric_mod packs a result that was never set, and keeps the raised scale. */
  method ModByZero(num1: Numeric, num2: Numeric, globalRscale0: int)
    returns (result: NumericVar, globalRscale: int, ex: DecimalException)
    requires num1.Canonical() && num2.Canonical() && num2.data == []
    ensures ex == DivideByZero && globalRscale == RatioScale(num1, num2)
    ensures result.Holds(0, 0) && result.rscale == 0 && result.dscale == 0
  {
    var arg1, arg2;
    arg1, arg2, result := UnpackBoth(num1, num2);
    AllZero(result.Magnitude(), 0);
    ghost var s, r := RatioScale(num1, num2), RemainderScale(num1, num2);
    ghost var t := QuotientScale(num1.Magnitude(), num2.Magnitude(), s);
    ghost var x, y := Abs(num1.Value()), Abs(num2.Value());
    globalRscale, ex := ModVar(arg1, x, arg2, y, result, globalRscale0, s, r, 0, t,
                               Left(x, num1.rscale, y, num2.rscale, Cut(0, t), r, num1.sign == Neg));
  }

  method ModUnpacked(num1: Numeric, num2: Numeric, globalRscale0: int, ghost r: int, ghost left: int)
    returns (result: NumericVar, globalRscale: int, ex: DecimalException)
    requires num1.Canonical() && num2.Canonical() && num2.data != [] && num2.Magnitude().Coef() > 0
    requires r == RemainderScale(num1, num2) && left == RemainderUnits(num1, num2)
    ensures ex == NoError && globalRscale == globalRscale0
    ensures result.Holds(left, r) && result.rscale == r && result.dscale == Max(num1.dscale, num2.dscale)
  {
    ghost var s := RatioScale(num1, num2);
    ghost var t := QuotientScale(num1.Magnitude(), num2.Magnitude(), s);
    ghost var q := QuotientOf(num1.Magnitude(), num2.Magnitude(), t);
    LeadingDigit(num2);
    result, globalRscale, ex := ModNumbers(num1, num2, globalRscale0, s, t, q, r, left, Abs(num1.Value()),
                                           Abs(num2.Value()));
  }

  method ModNumbers(num1: Numeric, num2: Numeric, globalRscale0: int, ghost s: int, ghost t: int, ghost q: nat,
                    ghost r: int, ghost left: int, ghost n: nat, ghost m: nat)
    returns (result: NumericVar, globalRscale: int, ex: DecimalException)
    requires num1.sign != NaN && num2.sign != NaN && num2.data != [] && num2.Magnitude().Coef() > 0
             && num2.Magnitude().digits[0] != 0
    requires num1.Magnitude().Is(n, num1.rscale) && num2.Magnitude().Is(m, num2.rscale)
    requires s == RatioScale(num1, num2) && t == QuotientScale(num1.Magnitude(), num2.Magnitude(), s)
    requires q == QuotientOf(num1.Magnitude(), num2.Magnitude(), t) && r == RemainderScale(num1, num2)
    requires r >= num1.rscale && r >= num2.rscale
             && left == Left(n, num1.rscale, m, num2.rscale, Cut(q, t), r, num1.sign == Neg)
    ensures ex == NoError && globalRscale == globalRscale0
    ensures result.Holds(left, r) && result.rscale == r && result.dscale == Max(num1.dscale, num2.dscale)
  {
    var arg1, arg2;
    arg1, arg2, result := UnpackBoth(num1, num2);
    globalRscale, ex := ModVar(arg1, n, arg2, m, result, globalRscale0, s, r, q, t, left);
  }

  // ---------- when the remainder is the true one ----------

  /** The quotient rounded to t decimals and then truncated is one too large exactly when it lies
      within half a unit of 10^-t below the next whole number. */
  lemma WholeIs(a: nat, b: nat, t: nat)
    requires b > 0
    ensures Cut(RoundDiv(a * Pow10(t), b), t) == a / b + if 2 * Pow10(t) * (b - a % b) <= b then 1 else 0
  {
    WholeFrom(a, b, t, a / b, a % b, RoundDiv(a % b * Pow10(t), b));
  }

  lemma WholeFrom(a: nat, b: nat, t: nat, f: nat, g: nat, h: nat)
    requires b > 0 && a == f * b + g && g < b && h == RoundDiv(g * Pow10(t), b)
    ensures Cut(RoundDiv(a * Pow10(t), b), t) == f + if 2 * Pow10(t) * (b - g) <= b then 1 else 0
  {
    FractionRounds(g, b, Pow10(t));
    RoundWhole(a, f, b, g, Pow10(t), h);
    CutWhole(f, h, t);
  }

  lemma CutWhole(f: nat, h: nat, t: nat)
    requires h <= Pow10(t)
    ensures Cut(f * Pow10(t) + h, t) == f + if h == Pow10(t) then 1 else 0
  {
    var p := Pow10(t);
    if t == 0 {
      assert p == 1 && Cut(f * p + h, 0) == (f * p + h) * Pow10(0);
    } else {
      Pow10Mono(0, t);
      var e := if h == p then 1 else 0;
      Distribute(f, e, p);
      DivUnique(f * p + h, p, f + e, if h == p then 0 else h);
    }
  }

  lemma FractionRounds(g: nat, b: nat, p: nat)
    requires g < b && p > 0
    ensures RoundDiv(g * p, b) <= p
    ensures RoundDiv(g * p, b) == p <==> 2 * p * (b - g) <= b
  {
    var h := RoundDiv(g * p, b);
    RoundDivBounds(g * p, b);
    MulMono(g, b, p);
    Shortfall(g, b, p);
    if h >= p + 1 { MulMono(p + 1, h, b); Distribute(p, 1, b); assert false; }
    if h <= p - 1 { MulMono(h, p - 1, b); Distribute(p, -1, b); }
  }

  lemma Shortfall(g: int, b: int, p: int)
    ensures 2 * p * (b - g) == 2 * (p * b) - 2 * (g * p)
  {
    assert p * (b - g) == p * b - p * g;
    MulAssoc(2, p, b - g);
  }

  /** One unit of 10^-Max(rscale) in units of 10^-RemainderScale. */
  function CommonUnit(p: Numeric, q: Numeric): nat { Pow10(RemainderScale(p, q) - Max(p.rscale, q.rscale)) }

  /** What is stored, in terms of the operands at their common scale. */
  lemma RemainderAtCommon(p: Numeric, q: Numeric, a: nat, b: nat, w: nat, k: nat)
    requires p.Canonical() && q.Canonical() && q.Magnitude().Coef() > 0 && AtCommon(p, q) == (a, b)
             && k == CommonUnit(p, q)
    requires w == WholeQuotient(p.Magnitude(), q.Magnitude(), RatioScale(p, q))
    ensures RemainderUnits(p, q) == WithSign((a - b * w) * k, p.sign == Neg)
  {
    var c, r := Max(p.rscale, q.rscale), RemainderScale(p, q);
    FinerUnits(p, c, r);
    FinerUnits(q, c, r);
    LeftScaled(Abs(p.Value()) * Pow10(r - p.rscale), Abs(q.Value()) * Pow10(r - q.rscale), a, b, w, k);
  }

  /** The whole quotient in terms of the operands at their common scale. */
  lemma WholeAtCommon(p: Numeric, q: Numeric, a: nat, b: nat, t: int, w: nat)
    requires p.Canonical() && q.Canonical() && q.data != [] && q.Magnitude().Coef() > 0 && AtCommon(p, q) == (a, b)
    requires t == QuotientScale(p.Magnitude(), q.Magnitude(), RatioScale(p, q))
    requires w == WholeQuotient(p.Magnitude(), q.Magnitude(), RatioScale(p, q))
    ensures b > 0 && t >= 0 && w == a / b + if 2 * Pow10(t) * (b - a % b) <= b then 1 else 0
  {
    QuotientAtCommon(p, q, a, b, t);
    WholeIs(a, b, t);
  }

  lemma LeftScaled(x: int, y: int, a: int, b: int, w: int, k: int)
    requires x == a * k && y == b * k
    ensures x - y * w == (a - b * w) * k
  {
    MulAssoc(b, k, w);
    MulAssoc(b, w, k);
  }

  lemma FinerUnits(p: Numeric, c: int, r: int)
    requires p.Canonical() && p.rscale <= c <= r
    ensures Abs(p.Value()) * Pow10(r - p.rscale) == p.Magnitude().At(c) * Pow10(r - c)
  {
    IsUp(p.Magnitude(), p.Magnitude().At(p.rscale), p.rscale, c);
    Pow10Add(c - p.rscale, r - c);
    MulAssoc(p.Magnitude().At(p.rscale), Pow10(c - p.rscale), Pow10(r - c));
  }

  /** x - y * trunc(x / y) in units of 10^-RemainderScale: below |y| in magnitude, with the sign of x. */
  function TrueRemainder(p: Numeric, q: Numeric): int
    requires AtCommon(p, q).1 > 0
  {
    WithSign((AtCommon(p, q).0 % AtCommon(p, q).1) * CommonUnit(p, q), p.sign == Neg)
  }

  lemma RemainderScaled(a: nat, b: nat, k: nat)
    requires b > 0 && k > 0
    ensures 0 <= a % b * k < b * k && (a * k - a % b * k) % (b * k) == 0 && (a % b * k > 0 ==> a * k > 0)
  {
    var f, g: int := a / b, a % b;
    UnderOther(g, b, k);
    assert a == f * b + g;
    Distribute(f * b, g, k);
    MulAssoc(f, b, k);
    DivUnique(a * k - g * k, b * k, f, 0);
    if a == 0 { assert g == 0; } else { MulMono(1, a, k); }
  }

  lemma UnderOther(g: int, b: int, k: nat)
    requires 0 <= g < b && k > 0
    ensures 0 <= g * k < b * k
  {
    MulMono(0, g, k);
    ProductBelow(g, b, k);
  }

  lemma UnitsAtCommon(p: Numeric, c: int, r: int, k: nat)
    requires p.Canonical() && p.rscale <= c <= r && k == Pow10(r - c)
    ensures p.Signed(r) == WithSign(p.Magnitude().At(c) * k, p.sign == Neg)
  {
    CommonIs(p, c);
    IsUp(p.Magnitude(), p.Magnitude().At(c), c, r);
  }

  /** That is the number z with the sign of x for which x - z is a whole multiple of y, and |z| < |y|. */
  lemma TrueRemainderIs(p: Numeric, q: Numeric, r: int, x: int, y: int, z: int)
    requires p.Canonical() && q.Canonical() && AtCommon(p, q).1 > 0 && r == RemainderScale(p, q)
    requires x == p.Signed(r) && y == q.Signed(r) && z == TrueRemainder(p, q)
    ensures 0 <= Abs(z) < Abs(y) && (Abs(x) - Abs(z)) % Abs(y) == 0 && (z > 0 ==> x > 0) && (z < 0 ==> x < 0)
  {
    var a, b, c, k := AtCommon(p, q).0, AtCommon(p, q).1, Max(p.rscale, q.rscale), CommonUnit(p, q);
    UnitsAtCommon(p, c, r, k);
    UnitsAtCommon(q, c, r, k);
    RemainderScaled(a, b, k);
    assert Abs(x) == a * k && Abs(y) == b * k && Abs(z) == a % b * k;
  }

  /** numeric_mod stores the true remainder exactly when the quotient's fraction does not round up to one. */
  lemma ModExactIff(p: Numeric, q: Numeric, a: nat, b: nat, t: int)
    requires p.Canonical() && q.Canonical() && q.data != [] && AtCommon(p, q) == (a, b)
    requires t == QuotientScale(p.Magnitude(), q.Magnitude(), RatioScale(p, q))
    ensures q.Magnitude().Coef() > 0 && b > 0 && t >= 0
    ensures RemainderUnits(p, q) == TrueRemainder(p, q) <==> 2 * Pow10(t) * (b - a % b) > b
  {
    CanonicalCoef(q);
    var w := WholeQuotient(p.Magnitude(), q.Magnitude(), RatioScale(p, q));
    RemainderAtCommon(p, q, a, b, w, CommonUnit(p, q));
    WholeAtCommon(p, q, a, b, t, w);
    RemainderWith(a, b, if 2 * Pow10(t) * (b - a % b) <= b then 1 else 0, CommonUnit(p, q));
  }

  lemma RemainderWith(a: nat, b: nat, e: int, k: nat)
    requires b > 0 && k > 0 && 0 <= e <= 1
    ensures (a - b * (a / b + e)) * k == (a % b) * k <==> e == 0
  {
    var g: int := a % b;
    DistributeLeft(b, a / b, e);
    assert a - b * (a / b + e) == g - b * e;
    if e == 1 { MulMono(g - b, -1, k); MulMono(0, g, k); }
  }

  /** A divisor below 2 * 10^s units of the operands' common scale always gives the true remainder. */
  lemma ModExactBelow(p: Numeric, q: Numeric, a: nat, b: nat, t: int)
    requires p.Canonical() && q.Canonical() && q.data != [] && AtCommon(p, q) == (a, b)
    requires b < 2 * Pow10(RatioScale(p, q)) && t == QuotientScale(p.Magnitude(), q.Magnitude(), RatioScale(p, q))
    ensures b > 0 && q.Magnitude().Coef() > 0 && RemainderUnits(p, q) == TrueRemainder(p, q)
  {
    ModExactIff(p, q, a, b, t);
    Pow10Mono(RatioScale(p, q), t);
    FractionClear(b, b - a % b, Pow10(t));
  }

  lemma FractionClear(b: nat, g: nat, p: nat)
    requires b < 2 * p && g >= 1
    ensures 2 * p * g > b
  {
    MulMono(1, g, 2 * p);
  }

  /** Neighbouring numbers differ in weight by one at most. */
  lemma NextWeight(p: Numeric, q: Numeric, a: nat, b: nat)
    requires p.Canonical() && q.Canonical() && q.data != [] && AtCommon(p, q) == (a, b) && a + 1 == b && a > 0
    ensures q.weight - p.weight <= 1
  {
    var c := Max(p.rscale, q.rscale);
    CanonicalCoef(q);
    CommonIs(q, c);
    NextOrder(p.Magnitude(), q.Magnitude(), a, b, c);
  }

  lemma NextOrder(m: Mag, l: Mag, a: nat, b: nat, c: int)
    requires m.At(c) == a > 0 && l.Is(b, c) && l.digits != [] && l.digits[0] != 0 && b == a + 1
    ensures l.weight - m.weight <= 1
  {
    LeadSize(l, b, c);
    PrefixBound(m.digits, m.weight + c + 1);
    if l.weight - m.weight >= 2 { Pow10Mono(m.weight + c + 1, l.weight + c); }
  }

  /** The bound is sharp: one unit below any larger divisor, minus one unit is stored for the remainder. */
  lemma ModMiss(p: Numeric, q: Numeric, a: nat, b: nat)
    requires p.Canonical() && q.Canonical() && q.data != [] && AtCommon(p, q) == (a, b)
    requires a + 1 == b && b >= 2 * Pow10(RatioScale(p, q))
    ensures q.Magnitude().Coef() > 0
    ensures RemainderUnits(p, q) == WithSign(-(CommonUnit(p, q) as int), p.sign == Neg)
  {
    CanonicalCoef(q);
    NextWeight(p, q, a, b);
    var w, k := WholeQuotient(p.Magnitude(), q.Magnitude(), RatioScale(p, q)), CommonUnit(p, q);
    RemainderAtCommon(p, q, a, b, w, k);
    WholeAtCommon(p, q, a, b, RatioScale(p, q), w);
    NinesWhole(a, b, Pow10(RatioScale(p, q)), w);
    MinusOne(a, b, w, k);
  }

  lemma NinesWhole(a: nat, b: nat, p: nat, w: nat)
    requires a + 1 == b && b >= 2 * p && p > 0 && w == a / b + if 2 * p * (b - a % b) <= b then 1 else 0
    ensures w == 1
  {
    DivUnique(a, b, 0, a);
  }

  lemma MinusOne(a: int, b: int, w: int, k: int)
    requires a + 1 == b && w == 1
    ensures (a - b * w) * k == -k
  {}

  /** A whole number of w + 1 digits as stored. */
  lemma WholeStored(n: nat, w: nat, p: Numeric)
    requires w < 0x8000 && Pow10(w) <= n < Pow10(w + 1) && p == Encode(n, 0, 0)
    ensures p.Canonical() && p.Value() == n && p.weight == w && p.rscale == 0 && p.dscale == 0
    ensures p.data != [] && p.Magnitude().At(0) == n
  {
    WeightOf(n, 0, w);
    DecodeEncode(n, 0, 0);
    TrimmedCanon(p);
  }

  lemma PowerBelow(s: nat, w: nat)
    requires s < w
    ensures 2 * Pow10(s) <= Pow10(w)
  {
    Pow10Mono(s, w);
  }

  /** The remainder law is false of the code: from w = 35 on, (10^w - 1) mod 10^w is stored as -1. */
  lemma NinesMiss(w: nat, p: Numeric, q: Numeric, a: nat, b: nat)
    requires 35 <= w < 0x8000 && b == Pow10(w) && a + 1 == b && p == Encode(a, 0, 0) && q == Encode(b, 0, 0)
    ensures p.Canonical() && q.Canonical() && q.Magnitude().Coef() > 0
    ensures RemainderScale(p, q) == 34 && RemainderUnits(p, q) == -(CommonUnit(p, q) as int)
  {
    WholeStored(a, w - 1, p);
    WholeStored(b, w, q);
    WholeScales(p, q);
    PowerBelow(34, w);
    ModMiss(p, q, a, b);
  }

  lemma WholeScales(p: Numeric, q: Numeric)
    requires p.rscale == 0 && q.rscale == 0 && p.dscale == 0 && q.dscale == 0
    ensures RatioScale(p, q) == 34 && RemainderScale(p, q) == 34
    ensures AtCommon(p, q) == (p.Magnitude().At(0), q.Magnitude().At(0))
  {}
}
