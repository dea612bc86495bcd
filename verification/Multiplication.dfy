/** Schoolbook multiplication. */
module Multiplication {
  import opened Decimal
  import opened Magnitudes
  import opened Variables
  import opened AddSub
  import opened Division

  /** One row: the buffer d, the running sum and x times the digits p still to come, both at index i. */
  ghost predicate Row(total: int, d: seq<digit>, i: int, sum: int, x: int, p: int)
  {
    i < |d| && total == Prefix(d, |d|) + (sum + x * p) * Pow10(|d| - 1 - i)
  }

  lemma RowNext(total: int, d: seq<digit>, i: nat, sum: int, x: int, p: int, p': int, c: int, y: digit, sum': int)
    requires Row(total, d, i, sum, x, p) && p == 10 * p' + c
    requires sum + d[i] as int + x * c == 10 * sum' + y as int
    ensures Row(total, d[i := y], i - 1, sum', x, p')
  {
    PrefixUpdate(d, i, y, |d|);
    RowAlgebra(sum, x, Pow10(|d| - 1 - i), p', c, d[i], y, sum');
  }

  lemma RowAlgebra(sum: int, x: int, t: int, p': int, c: int, was: int, y: int, sum': int)
    requires sum + was + x * c == 10 * sum' + y
    ensures (y - was) * t + (sum' + x * p') * (10 * t) == (sum + x * (10 * p' + c)) * t
  {
    assert sum + x * (10 * p' + c) == (y - was) + 10 * (sum' + x * p');
    Distribute(y - was, 10 * (sum' + x * p'), t);
  }

  /** The last carry of a row goes to a place that is still zero. */
  lemma RowLast(total: int, d: seq<digit>, i: nat, sum: digit, x: int)
    requires Row(total, d, i, sum as int, x, 0) && d[i] == 0
    ensures Prefix(d[i := sum], |d|) == total
  {
    PrefixUpdate(d, i, sum, |d|);
  }

  /** One place of a row: the digit x * c and the running sum are added to the buffer. */
  method RowDigit(res: array<digit>, i: nat, sum0: int, x: digit, c: digit, ghost total: int, ghost p: int,
                  ghost p': int)
    returns (sum: int, i': int)
    requires i < res.Length && 0 <= sum0 <= 9 && Row(total, res[..], i, sum0, x, p) && p == 10 * p' + c as int
    modifies res
    ensures 0 <= sum <= 9 && i' == i - 1 && Row(total, res[..], i', sum, x, p')
    ensures forall j :: 0 <= j < i ==> res[j] == old(res[j])
  {
    DigitProduct(x, c);
    ghost var before := res[..];
    sum := sum0 + res[i] as int + x as int * c as int;
    res[i] := sum % 10;
    sum := sum / 10;
    i' := i - 1;
    RowNext(total, before, i, sum0, x as int, p, p', c as int, res[i], sum);
    assert res[..] == before[i := res[i]];
  }

  /** The inner loop of mul_var: add digit x times var2 to the buffer, its last place at index ri. */
  method AddRow(res: array<digit>, x: digit, var2: NumericVar, ghost b: Mag, ri: nat)
    requires var2.Valid() && b == var2.Magnitude() && var2.buf != res
    requires var2.ndigits <= ri < res.Length && res[ri - var2.ndigits] == 0
    modifies res
    ensures forall k :: 0 <= k < ri - var2.ndigits ==> res[k] == old(res[k])
    ensures Prefix(res[..], res.Length)
         == old(Prefix(res[..], res.Length)) + x as int * b.Coef() * Pow10(res.Length - 1 - ri)
  {
    var sum: int := 0;
    var i := ri;
    var k := var2.ndigits;
    ghost var total := Prefix(res[..], res.Length) + x as int * b.Coef() * Pow10(res.Length - 1 - ri);
    while k > 0
      invariant 0 <= k <= var2.ndigits && i == ri - (var2.ndigits - k)
      invariant 0 <= sum <= 9
      invariant forall j :: 0 <= j <= ri - var2.ndigits ==> res[j] == old(res[j])
      invariant Row(total, res[..], i, sum, x as int, Prefix(b.digits, k))
    {
      k := k - 1;
      sum, i := RowDigit(res, i, sum, x, var2.buf[var2.start + k], total, Prefix(b.digits, k + 1), Prefix(b.digits, k));
    }
    RowLast(total, res[..], i, sum, x as int);
    ghost var before := res[..];
    res[i] := sum;
    assert res[..] == before[i := res[i]];
  }

  /** Between rows: the buffer d plus the first k digits of a times the factor coef make up the product. */
  ghost predicate Rows(total: int, d: seq<digit>, a: Mag, k: nat, coef: int)
  {
    k <= |a.digits| && total == Prefix(d, |d|) + Prefix(a.digits, k) * coef * Pow10(|a.digits| - k)
  }

  lemma RowsStart(d: seq<digit>, a: Mag, coef: int)
    requires forall j :: 0 <= j < |d| ==> d[j] == 0
    ensures Rows(a.Coef() * coef, d, a, |a.digits|, coef)
  {
    AllZero(Mag(d, |d| - 1), 0);
    assert a.Coef() * coef * Pow10(0) == a.Coef() * coef;
  }

  lemma RowsNext(total: int, d: seq<digit>, a: Mag, k: nat, x: digit, coef: int, e: seq<digit>)
    requires Rows(total, d, a, k + 1, coef) && x == a.digits[k]
    requires Prefix(e, |e|) == Prefix(d, |d|) + x as int * coef * Pow10(|a.digits| - (k + 1))
    ensures Rows(total, e, a, k, coef)
  {
    var p, t := Prefix(a.digits, k), Pow10(|a.digits| - (k + 1));
    assert Prefix(a.digits, k + 1) == 10 * p + x as int && Pow10(|a.digits| - k) == 10 * t;
    RowsAlgebra(p, x, coef, t);
  }

  lemma RowsAlgebra(p: int, x: int, coef: int, t: int)
    ensures (10 * p + x) * coef * t == x * coef * t + p * coef * (10 * t)
  {
    assert (10 * p + x) * coef == 10 * (p * coef) + x * coef by { Distribute(10 * p, x, coef); MulAssoc(10, p, coef); }
    Distribute(10 * (p * coef), x * coef, t);
  }

  /** One row of the double loop: the next digit of var1, from the right. */
  method NextRow(res: array<digit>, var1: NumericVar, ghost a: Mag, k0: nat, var2: NumericVar, ghost b: Mag, ri0: int,
                 ghost total: int, ghost coef: int)
    returns (k: nat, ri: int)
    requires var1.Valid() && var2.Valid() && a == var1.Magnitude() && b == var2.Magnitude() && var1.buf != res
             && var2.buf != res
    requires 0 < k0 <= var1.ndigits && ri0 == k0 + var2.ndigits + 1 && res.Length == var1.ndigits + var2.ndigits + 1
    requires coef == b.Coef() && Rows(total, res[..], a, k0, coef) && forall j :: 0 <= j <= k0 ==> res[j] == 0
    modifies res
    ensures k == k0 - 1 && ri == k + var2.ndigits + 1
    ensures Rows(total, res[..], a, k, coef) && forall j :: 0 <= j <= k ==> res[j] == 0
  {
    k, ri := k0 - 1, ri0 - 1;
    ghost var d := res[..];
    var x: digit := var1.buf[var1.start + k];
    AddRow(res, x, var2, b, ri);
    RowsNext(total, d, a, k, x, coef, res[..]);
  }

  /** The double loop of mul_var: the exact product of the two digit strings. */
  method MulDigits(var1: NumericVar, ghost a: Mag, var2: NumericVar, ghost b: Mag) returns (res: array<digit>)
    requires var1.Valid() && var2.Valid() && a == var1.Magnitude() && b == var2.Magnitude()
    ensures fresh(res) && res.Length == var1.ndigits + var2.ndigits + 1 && res[0] == 0
    ensures Prefix(res[..], res.Length) == a.Coef() * b.Coef()
  {
    var n := var1.ndigits + var2.ndigits + 1;
    res := new digit[n](_ => 0);
    var ri: int := n;
    var k := var1.ndigits;
    ghost var total, coef := a.Coef() * b.Coef(), b.Coef();
    RowsStart(res[..], a, coef);
    while k > 0
      invariant 0 <= k <= var1.ndigits && ri == k + var2.ndigits + 1
      invariant Rows(total, res[..], a, k, coef) && forall j :: 0 <= j <= k ==> res[j] == 0
      modifies res
    {
      k, ri := NextRow(res, var1, a, k, var2, b, ri, total, coef);
    }
  }

  /** The scale and value of a product as mul_var leaves it: rounded one place finer than
      asked for, or kept whole when that place lies above the first product digit. */
  function ProductScale(a: Mag, b: Mag, rscale: int): int
  {
    if a.weight + b.weight + rscale + 4 < 0 then a.Scale() + b.Scale() else rscale + 1
  }

  function ProductOf(a: Mag, b: Mag, rscale: int): nat
  {
    HalfUp(a.Coef() * b.Coef(), a.Scale() + b.Scale() - ProductScale(a, b, rscale))
  }

  method MulVar(var1: NumericVar, var2: NumericVar, result: NumericVar, globalRscale: int)
    requires var1.Valid() && var2.Valid() && var1.sign != NaN && var2.sign != NaN
    modifies result
    ensures fresh(result.buf) && result.rscale == globalRscale && result.dscale == old(result.dscale)
    ensures result.ndigits == 0 ==> result.weight == 0 && result.sign == Pos
    ensures var a, b := old(var1.Magnitude()), old(var2.Magnitude());
            var p: int := ProductOf(a, b, globalRscale);
            result.Holds(if old(var1.sign == var2.sign) then p else -p, ProductScale(a, b, globalRscale))
  {
    ghost var a, b := var1.Magnitude(), var2.Magnitude();
    var resWeight := var1.weight + var2.weight + 2;
    var resSign := if var1.sign == var2.sign then Pos else Neg;
    var res := MulDigits(var1, a, var2, b);
    ghost var p, s := ProductOf(a, b, globalRscale), ProductScale(a, b, globalRscale);
    assert Mag(res[..], resWeight).Is(a.Coef() * b.Coef(), a.Scale() + b.Scale());
    var nd := RoundProduct(res, resWeight, globalRscale, a.Coef() * b.Coef(), a.Scale() + b.Scale(), p, s);
    StoreProduct(result, res, nd, resWeight, globalRscale, resSign, p, s);
  }

  /** Nothing to round: the last place asked for is past the last digit. */
  lemma RoundKept(m: Mag, x: nat, e: int, s: int)
    requires m.Is(x, e) && |m.digits| <= m.weight + s + 1
    ensures m.Is(HalfUp(x, e - s), s)
  {
    RoundIsHalfUp(m, x, e, s);
  }

  /** The rounding of mul_var; the first nd digits are the result. */
  method RoundProduct(res: array<digit>, weight: int, rscale: int, ghost x: nat, ghost e: int, ghost p: nat,
                      ghost s: int)
    returns (nd: nat)
    requires res.Length > 0 && res[0] == 0 && Mag(res[..], weight).Is(x, e)
    requires s == (if weight + rscale + 2 < 0 then e else rscale + 1) && p == HalfUp(x, e - s)
    modifies res
    ensures nd <= res.Length && Mag(res[0..0 + nd], weight).Is(p, s)
  {
    ghost var m := Mag(res[..], weight);
    nd := res.Length;
    assert res[0..0 + nd] == res[..];
    var i := weight + rscale + 2;
    if 0 <= i < nd {
      RoundIsHalfUp(m, x, e, s);
      var carry := if res[i] > 4 then 1 else 0;
      nd := i;
      PrefixShift(res[..], res[0..i], 0, i);
      var j := PropagateCarry(res, 0, i, carry);
    } else if i >= nd {
      RoundKept(m, x, e, s);
    } else {
      assert x * Pow10(0) == x;
    }
  }

  /** The closing part of mul_var: strip the product and put it in result; zero is positive. */
  method StoreProduct(result: NumericVar, res: array<digit>, nd: nat, weight: int, rscale: int, sign: NumericSign,
                      ghost p: nat, ghost s: int)
    requires nd <= res.Length && sign != NaN && Mag(res[0..0 + nd], weight).Is(p, s)
    modifies result
    ensures result.buf == res && result.rscale == rscale && result.dscale == old(result.dscale)
    ensures result.ndigits == 0 ==> result.weight == 0 && result.sign == Pos
    ensures result.Holds(if sign == Pos then p as int else -(p as int), s)
  {
    StripInto(result, res, nd, weight, rscale, true, p, s);
    result.SetSign(if result.ndigits == 0 then Pos else sign, p, s);
  }
}
