/** floor_var, ceil_var and the packed operations built on them. */
module FloorCeil {
  import opened Decimal
  import opened Magnitudes
  import opened Variables
  import opened AddSub
  import opened Packed
  import opened Arithmetic
  import opened Laws

  /** The largest integer not above n / 10^r (division rounds down). */
  function FloorOf(n: int, r: nat): int { n / Pow10(r) }

  /** The smallest integer not below n / 10^r. */
  function CeilOf(n: int, r: nat): int { -(-n / Pow10(r)) }

  /** Comparing a number with its whole part t tells whether it has a fraction. */
  lemma FractionSeen(m: Mag, r: nat, t: Mag, neg: bool)
    requires m.Fits(r) && t.Is(m.At(0), 0)
    ensures CompareSigned(m, neg, t, neg) == 0 <==> m.Fits(0)
  {
    var w := m.At(0);
    IsUp(t, w, 0, r);
    CompareSignedAt(m, neg, t, neg, r);
    if m.Fits(0) { IsUp(m, w, 0, r); }
    if m.At(r) == t.At(r) { IsDown(m, w, r, 0); }
  }

  /** How many of the digits stand left of the point. */
  function WholeDigits(m: Mag): (n: nat)
    ensures n <= |m.digits|
  {
    Min(|m.digits|, Max(0, m.weight + 1))
  }

  /** What both routines take for a fraction: a digit right of the point, or a zero written there only. */
  predicate Fraction(m: Mag)
  {
    (exists k :: 0 <= k < |m.digits| && m.weight + 1 <= k && m.digits[k] != 0)
    || (m.Coef() == 0 && m.digits != [] && m.weight < 0)
  }

  /** Without leading zeros that is a number that is not whole. */
  lemma FractionIs(m: Mag)
    requires m.digits != [] ==> m.digits[0] != 0
    ensures Fraction(m) <==> !m.Fits(0)
  {
    LeadingNotZero(m);
  }

  /** With them it may be a zero: 0.0 counts as one tenth would. */
  lemma ZeroFraction(m: Mag)
    requires m == Mag([0], -1)
    ensures m.Fits(0) && m.Coef() == 0 && Fraction(m)
  {
    assert m.Coef() == 10 * Prefix([0], 0) + DigitAt([0], 0) as int;
  }

  /** The comparison of a number with its whole part t. */
  lemma FractionCompared(m: Mag, t: Mag, neg: bool)
    requires t.Is(m.At(0), 0) && t.digits == m.digits[..WholeDigits(m)]
    ensures CmpResult(m, neg, t, neg) != 0 <==> Fraction(m)
  {
    var r := Max(0, m.Scale());
    FractionSeen(m, r, t, neg);
    ZeroAt(m, r);
    PrefixShift(m.digits, t.digits, 0, |t.digits|);
    if m.Coef() == 0 { NoDigitSet(m); }
    assert m.Coef() == 0 ==> t.Coef() == 0 by {
      if m.Coef() == 0 { AllZero(Mag(t.digits, |t.digits| - 1), 0); }
    }
  }

  /** A digit string that spells zero is all zeros. */
  lemma NoDigitSet(m: Mag)
    requires m.Coef() == 0
    ensures forall k :: 0 <= k < |m.digits| ==> m.digits[k] == 0
  {
    PrefixZeros([], 0, |m.digits|);
    PrefixInjective(m.digits, [], |m.digits|);
    forall k | 0 <= k < |m.digits| ensures m.digits[k] == 0 {
      assert DigitAt(m.digits, k) == DigitAt([], k);
    }
  }

  /** The start of both routines: a copy of the variable without its fraction. */
  method WholeCopy(v: NumericVar, ghost m: Mag) returns (tmp: NumericVar)
    requires v.Valid() && m == v.Magnitude()
    ensures fresh(tmp) && tmp.Valid() && tmp.rscale == 0 && tmp.sign == v.sign && tmp.Magnitude().Is(m.At(0), 0)
    ensures tmp.Magnitude().digits == m.digits[..WholeDigits(m)] && tmp.Signed(0) == WithSign(m.At(0), v.sign == Neg)
  {
    tmp := new NumericVar();
    tmp.SetVarFromVar(v);
    tmp.rscale := 0;
    tmp.ndigits := Min(tmp.ndigits, Max(0, tmp.weight + 1));
    KeptDigits(m, 0, tmp.ndigits);
    assert tmp.Magnitude().digits == m.digits[..tmp.ndigits];
  }

  /** Whether the variable differs from its whole part tmp. */
  method Differs(v: NumericVar, tmp: NumericVar, ghost m: Mag) returns (differs: bool)
    requires v.Valid() && v.sign != NaN && m == v.Magnitude() && tmp.Valid() && tmp.sign == v.sign
    requires tmp.Magnitude().Is(m.At(0), 0) && tmp.Magnitude().digits == m.digits[..WholeDigits(m)]
    ensures differs <==> Fraction(m)
  {
    FractionCompared(m, tmp.Magnitude(), v.sign == Neg);
    var c := CmpVar(v, tmp);
    differs := c != 0;
  }

  method CeilVar(v: NumericVar, result: NumericVar, ghost m: Mag, ghost whole: int)
    requires v.Valid() && v.sign != NaN && m == v.Magnitude()
    requires whole == WithSign(m.At(0), v.sign == Neg) + if v.sign == Pos && Fraction(m) then 1 else 0
    modifies result
    ensures result.Valid() && result.sign != NaN && result.rscale == 0 && result.Signed(0) == whole
  {
    var tmp := WholeCopy(v, m);
    if tmp.sign == Pos {
      var differs := Differs(v, tmp, m);
      if differs { AddOne(tmp, whole); }
    }
    result.SetVarFromVar(tmp);
  }

  method FloorVar(v: NumericVar, result: NumericVar, ghost m: Mag, ghost whole: int)
    requires v.Valid() && v.sign != NaN && m == v.Magnitude()
    requires whole == WithSign(m.At(0), v.sign == Neg) - if v.sign == Neg && Fraction(m) then 1 else 0
    modifies result
    ensures result.Valid() && result.sign != NaN && result.rscale == 0 && result.Signed(0) == whole
  {
    var tmp := WholeCopy(v, m);
    if tmp.sign == Neg {
      var differs := Differs(v, tmp, m);
      if differs { SubOne(tmp, whole); }
    }
    result.SetVarFromVar(tmp);
  }

  /** add_var(&tmp, &const_one, &tmp) */
  method AddOne(tmp: NumericVar, ghost whole: int)
    requires tmp.Valid() && tmp.sign != NaN && tmp.rscale == 0 && whole == tmp.Signed(0) + 1
    modifies tmp
    ensures tmp.Valid() && tmp.sign != NaN && tmp.rscale == 0 && tmp.Signed(0) == whole
  {
    var one := new NumericVar.Constant(1);
    assert Prefix([1], 1) == 10 * Prefix([1], 0) + DigitAt([1], 0) as int;
    AddVar(tmp, one, tmp);
  }

  method SubOne(tmp: NumericVar, ghost whole: int)
    requires tmp.Valid() && tmp.sign != NaN && tmp.rscale == 0 && whole == tmp.Signed(0) - 1
    modifies tmp
    ensures tmp.Valid() && tmp.sign != NaN && tmp.rscale == 0 && tmp.Signed(0) == whole
  {
    var one := new NumericVar.Constant(1);
    assert Prefix([1], 1) == 10 * Prefix([1], 0) + DigitAt([1], 0) as int;
    SubVar(tmp, one, tmp);
  }

  // ---------- numeric_ceil and numeric_floor ----------

  lemma FloorOfNegative(x: int, p: int)
    requires x >= 0 && p > 0
    ensures -x / p == -(x / p) - if x % p == 0 then 0 else 1
  {
    var q, r := x / p, x % p;
    if r == 0 { DivUnique(-x, p, -q, 0); } else { Distribute(-q, -1, p); DivUnique(-x, p, -q - 1, p - r); }
  }

  lemma DivExact(n: int, p: int)
    requires p > 0 && n % p == 0
    ensures n == n / p * p
  {}

  lemma WholeNumber(m: Mag, n: nat, r: nat)
    requires m.Is(n, r)
    ensures m.At(0) == n / Pow10(r)
    ensures m.Fits(0) <==> n % Pow10(r) == 0
  {
    var w, p := m.At(0), Pow10(r);
    AtCut(m, n, r, 0);
    assert r == 0 ==> p == 1 && n * p == n && n / p == n;
    if m.Fits(0) {
      IsUp(m, w, 0, r);
      DivUnique(n, p, w, 0);
    }
    if n % p == 0 {
      DivExact(n, p);
      IsDown(m, w, r, 0);
    }
  }

  /** In terms of the whole part and the fraction, ceiling and floor are one off on one side of zero. */
  lemma OneOff(m: Mag, n: nat, r: nat, neg: bool, w: nat)
    requires m.Is(n, r) && w == m.At(0)
    ensures CeilOf(WithSign(n, neg), r) == WithSign(w, neg) + if !neg && !m.Fits(0) then 1 else 0
    ensures FloorOf(WithSign(n, neg), r) == WithSign(w, neg) - if neg && !m.Fits(0) then 1 else 0
  {
    WholeNumber(m, n, r);
    FloorOfNegative(n, Pow10(r));
  }

  lemma OneOffPacked(p: Numeric, w: nat, c: int, f: int)
    requires p.Canonical() && w == p.Magnitude().At(0)
    requires c == CeilOf(p.Value(), p.rscale) && f == FloorOf(p.Value(), p.rscale)
    ensures c == WithSign(w, p.sign == Neg) + if p.sign == Pos && !p.Magnitude().Fits(0) then 1 else 0
    ensures f == WithSign(w, p.sign == Neg) - if p.sign == Neg && !p.Magnitude().Fits(0) then 1 else 0
  {
    OneOff(p.Magnitude(), p.Magnitude().At(p.rscale), p.rscale, p.sign == Neg, w);
  }

  function Ceil(p: Numeric): Numeric
  {
    if IsNaN(p) then NUMERIC_NAN else Encode(CeilOf(p.Value(), p.rscale), 0, 0)
  }

  function Floor(p: Numeric): Numeric
  {
    if IsNaN(p) then NUMERIC_NAN else Encode(FloorOf(p.Value(), p.rscale), 0, 0)
  }

  method NumericCeil(num: Numeric) returns (res: Numeric)
    requires Stored(num)
    ensures res == Ceil(num)
    ensures IsNaN(num) ==> res == Numeric(0, 0, NaN, 0, [])
    ensures !IsNaN(num) ==> res == Encode(CeilOf(num.Value(), num.rscale), 0, 0)
  {
    if IsNaN(num) { return NUMERIC_NAN; }
    OneOffPacked(num, num.Magnitude().At(0), CeilOf(num.Value(), num.rscale), FloorOf(num.Value(), num.rscale));
    res := CeilNumber(num, num.Magnitude(), CeilOf(num.Value(), num.rscale));
  }

  method CeilNumber(num: Numeric, ghost m: Mag, ghost whole: int) returns (res: Numeric)
    requires num.Canonical() && m == num.Magnitude()
    requires whole == WithSign(m.At(0), num.sign == Neg) + if num.sign == Pos && !m.Fits(0) then 1 else 0
    ensures res == Encode(whole, 0, 0)
  {
    var result := Unpacked(num);
    LeadingDigit(num);
    FractionIs(m);
    CeilVar(result, result, m, whole);
    res := StoreWhole(result, whole);
  }

  method NumericFloor(num: Numeric) returns (res: Numeric)
    requires Stored(num)
    ensures res == Floor(num)
    ensures IsNaN(num) ==> res == Numeric(0, 0, NaN, 0, [])
    ensures !IsNaN(num) ==> res == Encode(FloorOf(num.Value(), num.rscale), 0, 0)
  {
    if IsNaN(num) { return NUMERIC_NAN; }
    OneOffPacked(num, num.Magnitude().At(0), CeilOf(num.Value(), num.rscale), FloorOf(num.Value(), num.rscale));
    res := FloorNumber(num, num.Magnitude(), FloorOf(num.Value(), num.rscale));
  }

  method FloorNumber(num: Numeric, ghost m: Mag, ghost whole: int) returns (res: Numeric)
    requires num.Canonical() && m == num.Magnitude()
    requires whole == WithSign(m.At(0), num.sign == Neg) - if num.sign == Neg && !m.Fits(0) then 1 else 0
    ensures res == Encode(whole, 0, 0)
  {
    var result := Unpacked(num);
    LeadingDigit(num);
    FractionIs(m);
    FloorVar(result, result, m, whole);
    res := StoreWhole(result, whole);
  }

  /** The common end of numeric_ceil and numeric_floor. */
  method StoreWhole(result: NumericVar, ghost whole: int) returns (res: Numeric)
    requires result.Valid() && result.sign != NaN && result.rscale == 0 && result.Signed(0) == whole
    modifies result
    ensures res == Encode(whole, 0, 0)
  {
    ghost var m := result.Magnitude();
    result.dscale := 0;
    assert result.Magnitude() == m;
    res := MakeResult(result);
  }

  // ---------- laws ----------

  lemma FloorAs(p: Numeric, n: int, r: nat, f: int)
    requires p.sign != NaN && n == p.Value() && r == p.rscale && f == FloorOf(n, r)
    ensures Floor(p) == Encode(f, 0, 0)
  {}

  lemma NegationOfWhole(e: Numeric, c: int)
    requires InRange(c, 0, 0) && e == Encode(c, 0, 0)
    ensures Negation(e) == Encode(-c, 0, 0)
  {
    assert e.sign != NaN && e.Value() == c && e.rscale == 0 && e.dscale == 0 by { DecodeEncode(c, 0, 0); }
  }

  lemma FloorOfNegated(p: Numeric, q: Numeric, c: int)
    requires p.Canonical() && q == Negation(p) && c == CeilOf(p.Value(), p.rscale)
    ensures Floor(q) == Encode(-c, 0, 0)
  {
    NegationIs(p);
    FloorAs(q, -p.Value(), p.rscale, -c);
  }

  /** floor(-x) is -ceil(x), byte for byte. */
  lemma FloorOfNegation(p: Numeric, c: int)
    requires p.Canonical() && c == CeilOf(p.Value(), p.rscale) && InRange(c, 0, 0)
    ensures Floor(Negation(p)) == Negation(Ceil(p))
  {
    NegationOfWhole(Ceil(p), c);
    FloorOfNegated(p, Negation(p), c);
  }

  /** The floor is the only integer f with f <= x < f + 1, the ceiling the only c with c - 1 < x <= c. */
  lemma FloorIff(n: int, r: nat, f: int)
    ensures FloorOf(n, r) == f <==> f * Pow10(r) <= n < (f + 1) * Pow10(r)
  {
    var p := Pow10(r);
    assert n == n / p * p + n % p;
    Distribute(f, 1, p);
    if f * p <= n < (f + 1) * p { DivUnique(n, p, f, n - f * p); }
  }

  lemma CeilIff(n: int, r: nat, c: int)
    ensures CeilOf(n, r) == c <==> (c - 1) * Pow10(r) < n <= c * Pow10(r)
  {
    FloorIff(-n, r, -c);
    var p := Pow10(r);
    Distribute(-c, 1, p);
    Distribute(c, -1, p);
    assert -c * p == -(c * p);
  }
}
