/** numeric_add, numeric_sub, numeric_mul, numeric_uminus and numeric_cmp on the packed form. */
module Arithmetic {
  import opened Decimal
  import opened Magnitudes
  import opened Variables
  import opened AddSub
  import opened Multiplication
  import opened Packed

  // ---------- what the packed operations compute ----------

  predicate IsNaN(p: Numeric) { p.sign == NaN }

  function Sum(p: Numeric, q: Numeric): Numeric
  {
    if IsNaN(p) || IsNaN(q) then NUMERIC_NAN
    else
      var r := Max(p.rscale, q.rscale);
      Encode(p.Signed(r) + q.Signed(r), r, Max(p.dscale, q.dscale))
  }

  function Difference(p: Numeric, q: Numeric): Numeric
  {
    if IsNaN(p) || IsNaN(q) then NUMERIC_NAN
    else
      var r := Max(p.rscale, q.rscale);
      Encode(p.Signed(r) - q.Signed(r), r, Max(p.dscale, q.dscale))
  }

  function Product(p: Numeric, q: Numeric): Numeric
  {
    if IsNaN(p) || IsNaN(q) then NUMERIC_NAN
    else Encode(p.Value() * q.Value(), p.rscale + q.rscale, p.dscale + q.dscale)
  }

  function Negation(p: Numeric): Numeric
  {
    if IsNaN(p) then NUMERIC_NAN else Encode(-p.Value(), p.rscale, p.dscale)
  }

  /** NaN is equal to itself and above every number. */
  function Order(p: Numeric, q: Numeric): int
  {
    if IsNaN(p) then (if IsNaN(q) then 0 else 1)
    else if IsNaN(q) then -1
    else
      var s := Max(p.rscale, q.rscale);
      Sign(p.Signed(s) - q.Signed(s))
  }

  /** A number as stored, or NaN. */
  ghost predicate Stored(p: Numeric) { p.Canonical() || IsNaN(p) }

  // ---------- the routines ----------

  lemma SumEncodes(p: Numeric, q: Numeric, n: int, r: int, d: int)
    requires p.sign != NaN && q.sign != NaN
    requires r == Max(p.rscale, q.rscale) && d == Max(p.dscale, q.dscale) && n == p.Signed(r) + q.Signed(r)
    ensures Sum(p, q) == Encode(n, r, d)
  {}

  method NumericAdd(num1: Numeric, num2: Numeric) returns (res: Numeric)
    ensures res == Sum(num1, num2)
    ensures IsNaN(num1) || IsNaN(num2) ==> res == Numeric(0, 0, NaN, 0, [])
  {
    if IsNaN(num1) || IsNaN(num2) { return NUMERIC_NAN; }
    ghost var r, d := Max(num1.rscale, num2.rscale), Max(num1.dscale, num2.dscale);
    ghost var n := num1.Signed(r) + num2.Signed(r);
    SumEncodes(num1, num2, n, r, d);
    res := AddNumbers(num1, num2, n, r, d);
  }

  method AddNumbers(num1: Numeric, num2: Numeric, ghost n: int, ghost r: int, ghost d: int) returns (res: Numeric)
    requires num1.sign != NaN && num2.sign != NaN && n == num1.Signed(r) + num2.Signed(r)
    requires r == Max(num1.rscale, num2.rscale) && d == Max(num1.dscale, num2.dscale)
    ensures res == Encode(n, r, d)
  {
    var result := AddUnpacked(num1, num2);
    res := PackExact(result, n, r, d);
  }

  method AddUnpacked(num1: Numeric, num2: Numeric) returns (result: NumericVar)
    requires num1.sign != NaN && num2.sign != NaN
    ensures result.rscale == Max(num1.rscale, num2.rscale) && result.dscale == Max(num1.dscale, num2.dscale)
    ensures result.Holds(num1.Signed(Max(num1.rscale, num2.rscale)) + num2.Signed(Max(num1.rscale, num2.rscale)),
                         result.rscale)
  {
    var arg1, arg2;
    arg1, arg2, result := UnpackBoth(num1, num2);
    AddVar(arg1, arg2, result);
  }

  lemma DifferenceEncodes(p: Numeric, q: Numeric, n: int, r: int, d: int)
    requires p.sign != NaN && q.sign != NaN
    requires r == Max(p.rscale, q.rscale) && d == Max(p.dscale, q.dscale) && n == p.Signed(r) - q.Signed(r)
    ensures Difference(p, q) == Encode(n, r, d)
  {}

  method NumericSub(num1: Numeric, num2: Numeric) returns (res: Numeric)
    ensures res == Difference(num1, num2)
    ensures IsNaN(num1) || IsNaN(num2) ==> res == Numeric(0, 0, NaN, 0, [])
  {
    if IsNaN(num1) || IsNaN(num2) { return NUMERIC_NAN; }
    ghost var r, d := Max(num1.rscale, num2.rscale), Max(num1.dscale, num2.dscale);
    ghost var n := num1.Signed(r) - num2.Signed(r);
    DifferenceEncodes(num1, num2, n, r, d);
    res := SubNumbers(num1, num2, n, r, d);
  }

  method SubNumbers(num1: Numeric, num2: Numeric, ghost n: int, ghost r: int, ghost d: int) returns (res: Numeric)
    requires num1.sign != NaN && num2.sign != NaN && n == num1.Signed(r) - num2.Signed(r)
    requires r == Max(num1.rscale, num2.rscale) && d == Max(num1.dscale, num2.dscale)
    ensures res == Encode(n, r, d)
  {
    var result := SubUnpacked(num1, num2);
    res := PackExact(result, n, r, d);
  }

  method SubUnpacked(num1: Numeric, num2: Numeric) returns (result: NumericVar)
    requires num1.sign != NaN && num2.sign != NaN
    ensures result.rscale == Max(num1.rscale, num2.rscale) && result.dscale == Max(num1.dscale, num2.dscale)
    ensures result.Holds(num1.Signed(Max(num1.rscale, num2.rscale)) - num2.Signed(Max(num1.rscale, num2.rscale)),
                         result.rscale)
  {
    var arg1, arg2;
    arg1, arg2, result := UnpackBoth(num1, num2);
    SubVar(arg1, arg2, result);
  }

  /** The product of two magnitudes read as whole numbers at their own scales. */
  lemma ProductSame(a: Mag, b: Mag, n: nat, r: int, m: nat, t: int)
    requires a.Is(n, r) && b.Is(m, t)
    ensures Same(a.Coef() * b.Coef(), a.Scale() + b.Scale(), n * m, r + t)
  {
    IsSame(a, a.Coef(), a.Scale(), n, r);
    IsSame(b, b.Coef(), b.Scale(), m, t);
    SameProduct(a.Coef(), a.Scale(), n, r, b.Coef(), b.Scale(), m, t);
  }

  lemma TenTimes(x: nat)
    ensures x * Pow10(1) == 10 * x && RoundDiv(10 * x, 1) == 10 * x && FloorDiv(10 * x, 10) == x && Pow10(1) == 10
  {}

  /** Rounded one place finer than it needs, or kept whole, a product is still the product. */
  lemma ProductKept(p: nat, e: int, x: nat, s: int, u: int, v: nat)
    requires Same(p, e, x, s) && v == HalfUp(p, e - u) && (u == s + 1 || u == e)
    ensures u == s + 1 ==> v == x * Pow10(1)
    ensures u != s + 1 ==> v == p
  {
    if u == s + 1 { HalfUpSame(p, e, x, s, s + 1); } else { assert p * Pow10(0) == p; }
  }

  /** What mul_var leaves, cut off at the summed scales, is the exact product. */
  lemma ProductExact(a: Mag, b: Mag, n: nat, r: int, m: nat, t: int)
    requires a.Is(n, r) && b.Is(m, t)
    ensures Cut(ProductOf(a, b, r + t), ProductScale(a, b, r + t) - (r + t)) == n * m
  {
    var p, e := a.Coef() * b.Coef(), a.Scale() + b.Scale();
    var u := ProductScale(a, b, r + t);
    ProductSame(a, b, n, r, m, t);
    ProductKept(p, e, n * m, r + t, u, ProductOf(a, b, r + t));
    if u == r + t + 1 { TenTimes(n * m); } else { CutSame(p, e, n * m, r + t); }
  }

  /** What mul_var leaves at the summed scales stands for the exact product. */
  lemma ProductStands(a: Mag, b: Mag, n: nat, r: int, m: nat, t: int, v: Mag)
    requires a.Is(n, r) && b.Is(m, t) && v.Is(ProductOf(a, b, r + t), ProductScale(a, b, r + t))
    ensures v.Is(n * m, r + t)
  {
    var p, e := a.Coef() * b.Coef(), a.Scale() + b.Scale();
    var u := ProductScale(a, b, r + t);
    ProductSame(a, b, n, r, m, t);
    ProductKept(p, e, n * m, r + t, u, ProductOf(a, b, r + t));
    if u == r + t + 1 { IsDown(v, n * m, u, r + t); } else { StandsFor(v, p, e, n * m, r + t); }
  }

  lemma StandsFor(v: Mag, p: nat, e: int, x: nat, s: int)
    requires v.Is(p, e) && Same(p, e, x, s)
    ensures v.Is(x, s)
  {
    if e <= s {
      IsUp(v, p, e, s);
    } else {
      IsDown(v, x, e, s);
    }
  }

  lemma SignedProduct(x: nat, y: nat, nx: bool, ny: bool)
    ensures WithSign(x, nx) * WithSign(y, ny) == WithSign(x * y, nx != ny)
  {}

  method NumericMul(num1: Numeric, num2: Numeric, globalRscale0: int) returns (res: Numeric, globalRscale: int)
    requires Stored(num1) && Stored(num2)
    ensures res == Product(num1, num2)
    ensures IsNaN(num1) || IsNaN(num2) ==> res == Numeric(0, 0, NaN, 0, [])
    ensures globalRscale == if IsNaN(num1) || IsNaN(num2) then globalRscale0 else num1.rscale + num2.rscale
  {
    if IsNaN(num1) || IsNaN(num2) { return NUMERIC_NAN, globalRscale0; }
    globalRscale := num1.rscale + num2.rscale;
    ghost var n, d := num1.Value() * num2.Value(), num1.dscale + num2.dscale;
    ProductEncodes(num1, num2, n, globalRscale, d);
    res := MulNumbers(num1, num2, globalRscale, n, d);
  }

  method MulNumbers(num1: Numeric, num2: Numeric, rscale: int, ghost n: int, ghost d: int) returns (res: Numeric)
    requires num1.Canonical() && num2.Canonical() && rscale == num1.rscale + num2.rscale
    requires n == num1.Value() * num2.Value() && d == num1.dscale + num2.dscale
    ensures res == Encode(n, rscale, d)
  {
    var result := MulUnpacked(num1, num2, rscale);
    ghost var p, t := SignedProductOf(num1, num2, rscale), ProductScale(num1.Magnitude(), num2.Magnitude(), rscale);
    SignedProductExact(num1, num2, rscale, n);
    res := PackCut(result, p, t, rscale, d);
  }

  /** What mul_var computes from two packed numbers, in units of 10^-ProductScale. */
  function SignedProductOf(p: Numeric, q: Numeric, r: int): int
  {
    WithSign(ProductOf(p.Magnitude(), q.Magnitude(), r), p.sign != q.sign)
  }

  lemma ProductEncodes(p: Numeric, q: Numeric, n: int, r: int, d: int)
    requires p.sign != NaN && q.sign != NaN
    requires r == p.rscale + q.rscale && d == p.dscale + q.dscale && n == p.Value() * q.Value()
    ensures Product(p, q) == Encode(n, r, d)
  {}

  method MulUnpacked(num1: Numeric, num2: Numeric, globalRscale: int) returns (result: NumericVar)
    requires num1.sign != NaN && num2.sign != NaN
    ensures fresh(result) && result.rscale == globalRscale && result.dscale == num1.dscale + num2.dscale
    ensures result.Holds(SignedProductOf(num1, num2, globalRscale),
                         ProductScale(num1.Magnitude(), num2.Magnitude(), globalRscale))
  {
    var arg1, arg2;
    arg1, arg2, result := UnpackBoth(num1, num2);
    ghost var n := SignedProductOf(num1, num2, globalRscale);
    ghost var t := ProductScale(num1.Magnitude(), num2.Magnitude(), globalRscale);
    Multiply(arg1, num1, arg2, num2, result, globalRscale, n, t);
    result.SetDscale(arg1.dscale + arg2.dscale, n, t);
  }

  /** mul_var into a variable apart from its operands. */
  method Multiply(arg1: NumericVar, ghost p: Numeric, arg2: NumericVar, ghost q: Numeric, result: NumericVar,
                  rscale: int, ghost n: int, ghost t: int)
    requires arg1.Valid() && arg2.Valid() && arg1.sign == p.sign != NaN && arg2.sign == q.sign != NaN
             && result !in {arg1, arg2}
    requires arg1.Magnitude() == p.Magnitude() && arg2.Magnitude() == q.Magnitude()
    requires n == SignedProductOf(p, q, rscale) && t == ProductScale(p.Magnitude(), q.Magnitude(), rscale)
    modifies result
    ensures result.rscale == rscale && result.Holds(n, t)
  {
    MulVar(arg1, arg2, result, rscale);
  }

  lemma SignedProductExact(num1: Numeric, num2: Numeric, r: int, n: int)
    requires num1.Canonical() && num2.Canonical() && r == num1.rscale + num2.rscale && n == num1.Value() * num2.Value()
    ensures CutSigned(SignedProductOf(num1, num2, r), ProductScale(num1.Magnitude(), num2.Magnitude(), r) - r) == n
  {
    var a, b := num1.Magnitude(), num2.Magnitude();
    var x, y := a.At(num1.rscale), b.At(num2.rscale);
    ProductExact(a, b, x, num1.rscale, y, num2.rscale);
    SignedProduct(x, y, num1.sign == Neg, num2.sign == Neg);
    SignSplit(x * y, ProductOf(a, b, r), ProductScale(a, b, r) - r);
  }

  /** Cutting a negated value negates the cut. */
  lemma SignSplit(xy: nat, p: nat, k: int)
    requires Cut(p, k) == xy
    ensures forall neg: bool :: CutSigned(WithSign(p, neg), k) == WithSign(xy, neg)
  {
    CutZero(k);
  }

  lemma FlippedSign(p: Numeric, q: Numeric)
    requires p.Canonical() && p.data != [] && q.data == p.data && q.weight == p.weight && q.rscale == p.rscale
    requires q.dscale == p.dscale && q.sign == (if p.sign == Pos then Neg else Pos)
    ensures q == Negation(p)
  {
    assert q.Magnitude() == p.Magnitude() && q.Canonical();
    assert q.Value() == -p.Value();
    EncodeDecode(q);
  }

  /** Flipping the sign bits of a packed number that has digits negates it. */
  method NumericUminus(num: Numeric) returns (res: Numeric)
    requires Stored(num)
    ensures res == Negation(num)
    ensures IsNaN(num) ==> res == Numeric(0, 0, NaN, 0, [])
  {
    if IsNaN(num) { return NUMERIC_NAN; }
    res := num;
    if |num.data| != 0 {
      if num.sign == Pos {
        res := num.(sign := Neg);
      } else {
        res := num.(sign := Pos);
      }
      FlippedSign(num, res);
    } else {
      TrimmedCanon(num);
      EncodeDecode(num);
    }
  }

  /** Two canonical numbers compare the same at their own scales and at any that fits both. */
  lemma OrderAt(p: Numeric, q: Numeric, s: int)
    requires p.Canonical() && q.Canonical() && p.Magnitude().Fits(s) && q.Magnitude().Fits(s)
    ensures Order(p, q) == Sign(p.Signed(s) - q.Signed(s))
  {
    var r := Max(p.rscale, q.rscale);
    SignedUp(p.Magnitude(), p.sign == Neg, q.Magnitude(), q.sign == Neg, r, Max(r, s));
    SignedUp(p.Magnitude(), p.sign == Neg, q.Magnitude(), q.sign == Neg, s, Max(r, s));
  }

  method NumericCmp(num1: Numeric, num2: Numeric) returns (r: int)
    requires Stored(num1) && Stored(num2)
    ensures r == Order(num1, num2)
    ensures IsNaN(num1) || IsNaN(num2) ==>
              r == if IsNaN(num1) && IsNaN(num2) then 0 else if IsNaN(num1) then 1 else -1
    ensures !IsNaN(num1) && !IsNaN(num2) ==>
              var s := Max(num1.rscale, num2.rscale);
              && (r == -1 <==> num1.Signed(s) < num2.Signed(s))
              && (r == 0 <==> num1.Signed(s) == num2.Signed(s))
              && (r == 1 <==> num1.Signed(s) > num2.Signed(s))
  {
    if IsNaN(num1) {
      if IsNaN(num2) { return 0; }
      return 1;
    } else if IsNaN(num2) {
      return -1;
    }
    OrderIsCompare(num1, num2);
    r := CmpNumbers(num1, num2);
  }

  method CmpNumbers(num1: Numeric, num2: Numeric) returns (r: int)
    requires num1.Canonical() && num2.Canonical()
    ensures r == CompareSigned(num1.Magnitude(), num1.sign == Neg, num2.Magnitude(), num2.sign == Neg)
  {
    LeadingDigit(num1);
    LeadingDigit(num2);
    r := CmpUnpacked(num1, num1.Magnitude(), num2, num2.Magnitude());
  }

  method CmpUnpacked(num1: Numeric, ghost a: Mag, num2: Numeric, ghost b: Mag) returns (r: int)
    requires num1.sign != NaN && num2.sign != NaN && a == num1.Magnitude() && b == num2.Magnitude()
    requires (a.digits != [] ==> a.digits[0] != 0) && (b.digits != [] ==> b.digits[0] != 0)
    ensures r == CompareSigned(a, num1.sign == Neg, b, num2.sign == Neg)
  {
    var arg1 := Unpacked(num1);
    var arg2 := Unpacked(num2);
    r := CmpLeading(arg1, arg2);
  }

  lemma OrderIsCompare(p: Numeric, q: Numeric)
    requires p.Canonical() && q.Canonical()
    ensures Order(p, q) == CompareSigned(p.Magnitude(), p.sign == Neg, q.Magnitude(), q.sign == Neg)
  {
    OrderAt(p, q, Max(p.Magnitude().Scale(), q.Magnitude().Scale()));
  }

  lemma LeadingDigit(p: Numeric)
    requires p.Canonical()
    ensures p.Magnitude().digits != [] ==> p.Magnitude().digits[0] != 0
  {}
}
