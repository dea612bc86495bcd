/** Comparison, addition and subtraction of working values. */
module AddSub {
  import opened Decimal
  import opened Magnitudes
  import opened Variables

  // ---------- comparing magnitudes ----------

  /** The digits worth more than 10^p are the same in a and b. */
  ghost predicate Agree(a: Mag, b: Mag, p: int)
  {
    forall q :: p < q ==> a.Digit(q) == b.Digit(q)
  }

  /** The first digit in which two magnitudes differ decides. */
  lemma {:induction false} FirstDifference(a: Mag, b: Mag, p: int, s: int)
    requires -p <= s && Agree(a, b, p) && a.Digit(p) < b.Digit(p)
    ensures a.At(s) < b.At(s)
    decreases s + p
  {
    AtStep(a, s);
    AtStep(b, s);
    if s == -p {
      SameAbove(a, b, s - 1);
    } else {
      FirstDifference(a, b, p, s - 1);
    }
  }

  lemma {:induction false} SameAbove(a: Mag, b: Mag, s: int)
    requires Agree(a, b, -s - 1)
    ensures a.At(s) == b.At(s)
    decreases Max(a.weight, b.weight) + s + 1
  {
    if Max(a.weight, b.weight) + s + 1 > 0 {
      AtStep(a, s);
      AtStep(b, s);
      SameAbove(a, b, s - 1);
    }
  }

  lemma Larger(a: Mag, b: Mag, p: int)
    requires Agree(a, b, p) && a.Digit(p) > b.Digit(p)
    ensures Compare(a, b) == 1 && Compare(b, a) == -1
  {
    FirstDifference(b, a, p, Max(a.Scale(), b.Scale()));
  }

  lemma AllAgree(a: Mag, b: Mag, p: int)
    requires Agree(a, b, p) && p <= a.weight - |a.digits| && p <= b.weight - |b.digits|
    ensures Compare(a, b) == 0
  {
    SameAbove(a, b, Max(a.Scale(), b.Scale()));
  }

  /** A leading digit above every digit of the other string. */
  lemma LeadDecides(a: Mag, b: Mag, w: int)
    requires (forall q :: w < q ==> a.Digit(q) == 0 && b.Digit(q) == 0) && a.Digit(w) > b.Digit(w)
    ensures Compare(a, b) == 1 && Compare(b, a) == -1
  {
    Larger(a, b, w);
  }

  method CmpAbs(var1: NumericVar, var2: NumericVar) returns (r: int)
    requires var1.Valid() && var2.Valid()
    ensures r == Compare(var1.Magnitude(), var2.Magnitude())
  {
    ghost var a, b := var1.Magnitude(), var2.Magnitude();
    var i1 := PassLeading(var1, a, var2.weight);
    var w1 := var1.weight - i1;
    if w1 > var2.weight && i1 < var1.ndigits {
      LeadDecides(a, b, w1);
      return 1;
    }
    r := CmpSecond(var1, a, var2, b, i1);
  }

  /** cmp_abs once the first operand has no digits above the second. */
  method CmpSecond(var1: NumericVar, ghost a: Mag, var2: NumericVar, ghost b: Mag, i1: nat) returns (r: int)
    requires var1.Valid() && var2.Valid() && a == var1.Magnitude() && b == var2.Magnitude() && i1 <= var1.ndigits
    requires (forall q :: a.weight - i1 < q ==> a.Digit(q) == 0) && (i1 == 0 || a.weight - i1 >= b.weight)
    requires a.weight - i1 > b.weight ==> i1 == var1.ndigits
    ensures r == Compare(a, b)
  {
    var w1 := var1.weight - i1;
    var i2 := PassLeading(var2, b, w1);
    var w2 := var2.weight - i2;
    if w2 > w1 && i2 < var2.ndigits {
      LeadDecides(b, a, w2);
      return -1;
    }
    r := CmpRest(var1, a, var2, b, i1, i2);
  }

  /** CmpAbs after the leading zeros of the farther-reaching operand. */
  method CmpRest(var1: NumericVar, ghost a: Mag, var2: NumericVar, ghost b: Mag, j1: nat, j2: nat) returns (r: int)
    requires var1.Valid() && var2.Valid() && a == var1.Magnitude() && b == var2.Magnitude()
    requires j1 <= var1.ndigits && j2 <= var2.ndigits
    requires Agree(a, b, Max(a.weight - j1, b.weight - j2))
    requires a.weight - j1 > b.weight - j2 ==> j1 == var1.ndigits && j2 == 0
    requires a.weight - j1 < b.weight - j2 ==> j2 == var2.ndigits && j1 == 0
    ensures r == Compare(a, b)
  {
    var i1, i2 := j1, j2;
    if var1.weight - i1 == var2.weight - i2 {
      r, i1, i2 := CmpAligned(var1, a, var2, b, i1, i2);
      if r != 0 {
        return r;
      }
    }
    r := CmpTails(var1, a, var2, b, i1, i2);
  }

  /** The two opening loops of CmpAbs: pass over leading zeros worth more than 10^floor.
      They stop at a non-zero digit, at the floor, or when no digit is left. */
  method PassLeading(v: NumericVar, ghost m: Mag, floor: int) returns (i: nat)
    requires v.Valid() && m == v.Magnitude()
    ensures i <= v.ndigits && (i == 0 || v.weight - i >= floor)
    ensures forall q :: m.weight - i < q ==> m.Digit(q) == 0
    ensures m.weight - i > floor && i < v.ndigits ==> m.Digit(m.weight - i) != 0
  {
    i := 0;
    while v.weight - i > floor && i < v.ndigits && v.buf[v.start + i] == 0
      invariant i <= v.ndigits && (i == 0 || v.weight - i >= floor)
      invariant forall q :: m.weight - i < q ==> m.Digit(q) == 0
    {
      i := i + 1;
    }
  }

  lemma DigitHere(v: NumericVar, m: Mag, i: nat)
    requires v.Valid() && m == v.Magnitude() && i < v.ndigits
    ensures m.Digit(m.weight - i) == v.buf[v.start + i]
  {}

  /** Two aligned digits: the sign of their difference decides, or the strings agree one place further. */
  lemma AlignedStep(a: Mag, b: Mag, p: int, stat: int)
    requires Agree(a, b, p) && stat == a.Digit(p) as int - b.Digit(p) as int
    ensures stat == 0 ==> Agree(a, b, p - 1)
    ensures stat != 0 ==> Compare(a, b) == Sign(stat)
  {
    if stat > 0 { Larger(a, b, p); }
    if stat < 0 { Larger(b, a, p); }
  }

  /** The inner loop of CmpAbs, once the two digit positions are aligned. */
  method CmpAligned(var1: NumericVar, ghost a: Mag, var2: NumericVar, ghost b: Mag, j1: nat, j2: nat)
    returns (r: int, i1: nat, i2: nat)
    requires var1.Valid() && var2.Valid() && a == var1.Magnitude() && b == var2.Magnitude()
    requires j1 <= var1.ndigits && j2 <= var2.ndigits && a.weight - j1 == b.weight - j2
    requires Agree(a, b, a.weight - j1)
    ensures r != 0 ==> r == Compare(a, b)
    ensures r == 0 ==> a.weight - i1 == b.weight - i2 && Agree(a, b, a.weight - i1)
    ensures r == 0 ==> (i1 == var1.ndigits && i2 <= var2.ndigits) || (i1 <= var1.ndigits && i2 == var2.ndigits)
  {
    i1, i2 := j1, j2;
    while i1 < var1.ndigits && i2 < var2.ndigits
      invariant i1 <= var1.ndigits && i2 <= var2.ndigits && a.weight - i1 == b.weight - i2
      invariant Agree(a, b, a.weight - i1)
    {
      var stat := var1.buf[var1.start + i1] as int - var2.buf[var2.start + i2] as int;
      DigitHere(var1, a, i1);
      DigitHere(var2, b, i2);
      AlignedStep(a, b, a.weight - i1, stat);
      if stat != 0 {
        if stat > 0 { return 1, i1, i2; }
        return -1, i1, i2;
      }
      i1, i2 := i1 + 1, i2 + 1;
    }
    r := 0;
  }

  /** Pass over zeros to the next digit that is not. */
  method PassZeros(v: NumericVar, ghost m: Mag, j: nat) returns (i: nat)
    requires v.Valid() && m == v.Magnitude() && j <= v.ndigits
    ensures j <= i <= v.ndigits && (i < v.ndigits ==> m.Digit(m.weight - i) != 0)
    ensures forall q :: m.weight - i < q <= m.weight - j ==> m.Digit(q) == 0
  {
    i := j;
    while i < v.ndigits && v.buf[v.start + i] == 0
      invariant j <= i <= v.ndigits
      invariant forall q :: m.weight - i < q <= m.weight - j ==> m.Digit(q) == 0
    {
      DigitHere(v, m, i);
      i := i + 1;
    }
    if i < v.ndigits { DigitHere(v, m, i); }
  }

  /** The closing loops of CmpAbs: at most one operand has digits left. */
  method CmpTails(var1: NumericVar, ghost a: Mag, var2: NumericVar, ghost b: Mag, j1: nat, j2: nat) returns (r: int)
    requires var1.Valid() && var2.Valid() && a == var1.Magnitude() && b == var2.Magnitude()
    requires j1 <= var1.ndigits && j2 <= var2.ndigits && (j1 == var1.ndigits || j2 == var2.ndigits)
    requires Agree(a, b, Max(a.weight - j1, b.weight - j2))
    requires a.weight - j1 > b.weight - j2 ==> j1 == var1.ndigits && j2 == 0
    requires a.weight - j1 < b.weight - j2 ==> j2 == var2.ndigits && j1 == 0
    ensures r == Compare(a, b)
  {
    var i1 := PassZeros(var1, a, j1);
    if i1 < var1.ndigits {
      TailLarger(a, b, j1, j2, i1);
      return 1;
    }
    var i2 := PassZeros(var2, b, j2);
    if i2 < var2.ndigits {
      TailLarger(b, a, j2, j1, i2);
      return -1;
    }
    TailsZero(a, b, j1, j2);
    return 0;
  }

  /** Only a has digits left, zeros down to the one at index i. */
  lemma TailLarger(a: Mag, b: Mag, j1: nat, j2: nat, i: nat)
    requires j1 <= i < |a.digits| && j2 == |b.digits| && a.weight - j1 <= b.weight - j2
    requires Agree(a, b, b.weight - j2) || Agree(b, a, b.weight - j2)
    requires a.weight - j1 < b.weight - j2 ==> j1 == 0
    requires a.Digit(a.weight - i) != 0 && forall q :: a.weight - i < q <= a.weight - j1 ==> a.Digit(q) == 0
    ensures Compare(a, b) == 1 && Compare(b, a) == -1
  {
    var p := a.weight - i;
    forall q | p < q ensures a.Digit(q) == b.Digit(q) {
      if q <= b.weight - j2 { assert b.Digit(q) == 0; }
    }
    Larger(a, b, p);
  }

  lemma TailsZero(a: Mag, b: Mag, j1: nat, j2: nat)
    requires j1 <= |a.digits| && j2 <= |b.digits| && Agree(a, b, Max(a.weight - j1, b.weight - j2))
    requires a.weight - j1 > b.weight - j2 ==> j2 == 0
    requires a.weight - j1 < b.weight - j2 ==> j1 == 0
    requires forall q :: a.weight - |a.digits| < q <= a.weight - j1 ==> a.Digit(q) == 0
    requires forall q :: b.weight - |b.digits| < q <= b.weight - j2 ==> b.Digit(q) == 0
    ensures Compare(a, b) == 0
  {
    var p := Min(a.weight - |a.digits|, b.weight - |b.digits|);
    forall q | p < q ensures a.Digit(q) == b.Digit(q) {
      if q <= Max(a.weight - j1, b.weight - j2) { assert a.Digit(q) == 0 && b.Digit(q) == 0; }
    }
    AllAgree(a, b, p);
  }

  // ---------- digit-wise addition and subtraction ----------

  /** x with n zeros appended. */
  function Shifted(x: int, n: nat): int { if n == 0 then x else 10 * Shifted(x, n - 1) }

  lemma {:induction false} ShiftedIs(x: int, n: nat)
    ensures Shifted(x, n) == x * Pow10(n)
  {
    if n > 0 {
      ShiftedIs(x, n - 1);
      TenIn(x, Pow10(n - 1));
    }
  }

  /** Of a sum with the given total, the places below stand in d; above them p and a carry c remain. */
  ghost predicate Column(total: int, p: int, c: int, d: seq<digit>)
  {
    total == Shifted(p + c, |d|) + Prefix(d, |d|)
  }

  lemma ColumnStart(total: int)
    ensures Column(total, total, 0, [])
  {}

  lemma {:induction false} ShiftedNext(y: int, x: int, n: nat)
    ensures Shifted(10 * y + x, n) == Shifted(y, n + 1) + x * Pow10(n)
  {
    if n > 0 {
      ShiftedNext(y, x, n - 1);
      TenIn(x, Pow10(n - 1));
    }
  }

  lemma ColumnNext(total: int, p: int, c: int, d: seq<digit>, q: int, a: int, c': int, e: seq<digit>)
    requires Column(total, p, c, d) && e != [] && e[1..] == d
    requires p == 10 * q + a && a + c == 10 * c' + e[0] as int
    ensures Column(total, q, c', e)
  {
    PrefixCons(d, e);
    ShiftedNext(q + c', e[0], |d|);
    assert p + c == 10 * (q + c') + e[0] as int;
  }

  /** When nothing remains above, the places below are the whole sum and no carry is left. */
  lemma ColumnEnd(total: nat, c: int, d: seq<digit>)
    requires Column(total, 0, c, d) && total < Pow10(|d|)
    ensures c == 0 && total == Prefix(d, |d|)
  {
    ShiftedIs(c, |d|);
    PrefixBound(d, |d|);
    NoCarry(total, c, Pow10(|d|), Prefix(d, |d|));
  }

  /** A number with t places and a carry out, below 10^t, has carry zero. */
  lemma NoCarry(total: nat, c: int, t: nat, v: nat)
    requires total == c * t + v && total < t && v < t
    ensures c == 0
  {
    if c >= 1 { MulMono(1, c, t); assert false; }
    if c <= -1 { MulMono(c, -1, t); assert false; }
  }

  /** Stripping keeps the value, and so does resetting the weight of a zero. */
  lemma StrippedResult(m: Mag, t: Mag, n: nat, s: int)
    requires IsTrim(m, t) && m.Is(n, s)
    ensures t.Exactly(n, s) && (n == 0 <==> t.digits == [])
    ensures n == 0 ==> Mag([], 0).Exactly(n, s)
  {
    StrippedSize(t, n, s);
    AllZero(Mag([], 0), s);
  }

  /** At most one digit is read per decimal place down to scale s. */
  lemma AtBound(m: Mag, s: int, n: nat)
    requires m.weight + s + 1 <= n
    ensures m.At(s) < Pow10(n)
    ensures Prefix(m.digits, m.weight + s + 1 - n) == 0
  {
    PrefixBound(m.digits, Max(0, m.weight + s + 1));
    Pow10Mono(Max(0, m.weight + s + 1), n);
  }

  /** The buffer of a digit-wise routine; it is one zero digit when no place is kept. */
  lemma ResultIs(m: Mag, total: nat, s: int, n: nat)
    requires |m.digits| == n == Max(1, m.weight + s + 1) && Prefix(m.digits, n) == total
    requires m.weight + s + 1 <= 0 ==> total == 0
    ensures m.Is(total, s)
  {
    if m.weight + s + 1 <= 0 { assert m.digits[0] == 10 * Prefix(m.digits, 0) + DigitAt(m.digits, 0) as int; }
  }

  method AddAbs(var1: NumericVar, var2: NumericVar, result: NumericVar)
    requires var1.Valid() && var2.Valid()
    modifies result
    ensures result.Valid() && result.buf != null && fresh(result.buf)
    ensures result.rscale == old(Max(var1.rscale, var2.rscale)) && result.dscale == old(Max(var1.dscale, var2.dscale))
    ensures result.Magnitude().Canon(old(var1.Magnitude().At(Max(var1.rscale, var2.rscale))
                                         + var2.Magnitude().At(Max(var1.rscale, var2.rscale))), result.rscale)
    ensures result.sign == old(result.sign)
  {
    ghost var a, b := var1.Magnitude(), var2.Magnitude();
    var resWeight := Max(var1.weight, var2.weight) + 1;
    var resRscale := Max(var1.rscale, var2.rscale);
    var resDscale := Max(var1.dscale, var2.dscale);
    var n := resRscale + resWeight + 1;
    if n <= 0 { n := 1; }
    var resBuf := AddColumns(var1, a, var2, b, resRscale, n);
    ResultIs(Mag(resBuf[..], resWeight), a.At(resRscale) + b.At(resRscale), resRscale, n);
    result.dscale := resDscale;
    assert resBuf[0..0 + n] == resBuf[..];
    StripInto(result, resBuf, n, resWeight, resRscale, true, a.At(resRscale) + b.At(resRscale), resRscale);
  }

  /** The closing loops of the digit-wise routines: strip a new buffer of nd digits and hand it
      to result.  All but div_var also reset the weight of a zero. */
  method StripInto(result: NumericVar, buf: array<digit>, nd: nat, weight: int, rscale: int, resetWeight: bool,
                   ghost n: nat, ghost s: int)
    requires nd <= buf.Length && Mag(buf[0..0 + nd], weight).Is(n, s)
    modifies result
    ensures result.Valid() && result.buf == buf && result.rscale == rscale
    ensures result.Magnitude().Exactly(n, s) && (result.ndigits == 0 <==> n == 0)
    ensures resetWeight && n == 0 ==> result.weight == 0
    ensures result.dscale == old(result.dscale) && result.sign == old(result.sign)
  {
    var off, n', w;
    ghost var t;
    off, n', w, t := StripDigits(buf, nd, weight, resetWeight, n, s);
    result.SetDigits(buf, off, n', w, rscale);
  }

  /** Both stripping loops, on digits known to stand for n / 10^s. */
  method StripExact(buf: array<digit>, off: nat, nd: nat, weight: int, ghost n: nat, ghost s: int)
    returns (off': nat, n': nat, w: int, ghost t: Mag)
    requires off + nd <= buf.Length && Mag(buf[off..off + nd], weight).Is(n, s)
    ensures off' + n' <= buf.Length && t == Mag(buf[off'..off' + n'], w) && t.Exactly(n, s) && (n' == 0 <==> n == 0)
    ensures n == 0 ==> Mag([], 0).Exactly(n, s)
  {
    off', n', w := StripZeros(buf, off, nd, weight);
    t := Mag(buf[off'..off' + n'], w);
    StrippedResult(Mag(buf[off..off + nd], weight), t, n, s);
  }

  method StripDigits(buf: array<digit>, nd: nat, weight: int, resetWeight: bool, ghost n: nat, ghost s: int)
    returns (off: nat, n': nat, w: int, ghost t: Mag)
    requires nd <= buf.Length && Mag(buf[0..0 + nd], weight).Is(n, s)
    ensures off + n' <= buf.Length && t == Mag(buf[off..off + n'], w)
    ensures t.Exactly(n, s) && (n' == 0 <==> n == 0) && (resetWeight && n == 0 ==> w == 0)
  {
    off, n', w, t := StripExact(buf, 0, nd, weight, n, s);
    if resetWeight && n' == 0 {
      w := 0;
      t := Mag([], 0);
    }
  }

  /** The digit an operand has in a column, zero outside its digits. */
  method ColumnDigit(v: NumericVar, ghost m: Mag, i: int) returns (x: int)
    requires v.Valid() && m == v.Magnitude()
    ensures x == DigitAt(m.digits, i) && 0 <= x <= 9
  {
    x := 0;
    if 0 <= i < v.ndigits { x := v.buf[v.start + i]; }
  }

  method PutSum(res: array<digit>, i: nat, sum: int) returns (carry: int)
    requires i < res.Length && 0 <= sum <= 19
    modifies res
    ensures 0 <= carry <= 1 && sum == 10 * carry + res[i] as int && res[i + 1..] == old(res[i + 1..])
  {
    if sum >= 10 {
      res[i] := sum - 10;
      carry := 1;
    } else {
      res[i] := sum;
      carry := 0;
    }
  }

  /** The digits of the operands above the places i1 and i2 are still to be added up. */
  ghost predicate Adding(total: int, a: Mag, i1: int, b: Mag, i2: int, c: int, d: seq<digit>)
  {
    Column(total, Prefix(a.digits, i1) + Prefix(b.digits, i2), c, d)
  }

  lemma AddingNext(total: int, a: Mag, i1: int, b: Mag, i2: int, c: int, d: seq<digit>,
                   j1: int, j2: int, x: int, y: int, c': int, e: seq<digit>)
    requires Adding(total, a, i1, b, i2, c, d) && j1 == i1 - 1 && j2 == i2 - 1 && x == DigitAt(a.digits, j1)
             && y == DigitAt(b.digits, j2)
    requires e != [] && e[1..] == d && c + x + y == 10 * c' + e[0] as int
    ensures Adding(total, a, j1, b, j2, c', e)
  {
    ColumnNext(total, Prefix(a.digits, i1) + Prefix(b.digits, i2), c, d, Prefix(a.digits, j1) + Prefix(b.digits, j2),
               x + y, c', e);
  }

  /** One column, left of the places i1 and i2 of the operands: a digit of each and the carry. */
  method SumColumn(var1: NumericVar, ghost a: Mag, i1: int, var2: NumericVar, ghost b: Mag, i2: int,
                   res: array<digit>, i: nat, carry0: int, ghost total: int, ghost done: seq<digit>)
    returns (carry: int, i1': int, i2': int, ghost d: seq<digit>)
    requires var1.Valid() && var2.Valid() && a == var1.Magnitude() && b == var2.Magnitude()
    requires i < res.Length && 0 <= carry0 <= 1 && done == res[i + 1..] && Adding(total, a, i1, b, i2, carry0, done)
    modifies res
    ensures 0 <= carry <= 1 && i1' == i1 - 1 && i2' == i2 - 1
    ensures d == res[i..] && Adding(total, a, i1', b, i2', carry, d)
  {
    i1', i2' := i1 - 1, i2 - 1;
    var x := ColumnDigit(var1, a, i1');
    var y := ColumnDigit(var2, b, i2');
    carry := PutSum(res, i, carry0 + x + y);
    d := res[i..];
    AddingNext(total, a, i1, b, i2, carry0, done, i1', i2', x, y, carry, d);
  }

  /** The column loop of AddAbs, from the least significant place of the result up. */
  method AddColumns(var1: NumericVar, ghost a: Mag, var2: NumericVar, ghost b: Mag, rscale: int, n: nat)
    returns (res: array<digit>)
    requires var1.Valid() && var2.Valid() && a == var1.Magnitude() && b == var2.Magnitude()
    requires a.weight + rscale + 2 <= n && b.weight + rscale + 2 <= n && n > 0
    ensures fresh(res) && res.Length == n
    ensures Prefix(res[..], n) == a.At(rscale) + b.At(rscale)
  {
    res := new digit[n];
    ColumnStart(a.At(rscale) + b.At(rscale));
    ghost var carry := AddPlaces(var1, a, rscale + var1.weight + 1, var2, b, rscale + var2.weight + 1, res,
                                 a.At(rscale) + b.At(rscale));
    AddCarry(a, b, rscale, n, a.At(rscale) + b.At(rscale), carry, res[..]);
  }

  method AddPlaces(var1: NumericVar, ghost a: Mag, i10: int, var2: NumericVar, ghost b: Mag, i20: int,
                   res: array<digit>, ghost total: int)
    returns (carry: int)
    requires var1.Valid() && var2.Valid() && a == var1.Magnitude() && b == var2.Magnitude() && res != var1.buf
             && res != var2.buf
    requires Adding(total, a, i10, b, i20, 0, [])
    modifies res
    ensures Adding(total, a, i10 - res.Length, b, i20 - res.Length, carry, res[..])
  {
    var i1, i2, i := i10, i20, res.Length;
    carry := 0;
    ghost var done: seq<digit> := [];
    while i > 0
      invariant 0 <= i <= res.Length && 0 <= carry <= 1 && i10 - i1 == i20 - i2 == res.Length - i
      invariant done == res[i..] && Adding(total, a, i1, b, i2, carry, done)
    {
      i := i - 1;
      carry, i1, i2, done := SumColumn(var1, a, i1, var2, b, i2, res, i, carry, total, done);
    }
    assert res[0..] == res[..];
  }

  /** The Assert after the column loop of add_abs: no carry is left over. */
  lemma AddCarry(a: Mag, b: Mag, rscale: int, n: nat, total: int, carry: int, d: seq<digit>)
    requires a.weight + rscale + 2 <= n && b.weight + rscale + 2 <= n && n > 0 && |d| == n
    requires total == a.At(rscale) + b.At(rscale)
    requires Adding(total, a, rscale + a.weight + 1 - n, b, rscale + b.weight + 1 - n, carry, d)
    ensures carry == 0 && total == Prefix(d, n)
  {
    AtBound(a, rscale, n - 1);
    AtBound(b, rscale, n - 1);
    ColumnEnd(total, carry, d);
  }

  method SubAbs(var1: NumericVar, var2: NumericVar, result: NumericVar)
    requires var1.Valid() && var2.Valid()
    requires var2.Magnitude().At(Max(var1.rscale, var2.rscale)) <= var1.Magnitude().At(Max(var1.rscale, var2.rscale))
    modifies result
    ensures result.Valid() && result.buf != null && fresh(result.buf)
    ensures result.rscale == old(Max(var1.rscale, var2.rscale)) && result.dscale == old(Max(var1.dscale, var2.dscale))
    ensures result.Magnitude().Canon(old(var1.Magnitude().At(Max(var1.rscale, var2.rscale))
                                         - var2.Magnitude().At(Max(var1.rscale, var2.rscale))), result.rscale)
    ensures result.sign == old(result.sign)
  {
    ghost var a, b := var1.Magnitude(), var2.Magnitude();
    var resWeight := var1.weight;
    var resRscale := Max(var1.rscale, var2.rscale);
    var resDscale := Max(var1.dscale, var2.dscale);
    var n := resRscale + resWeight + 1;
    if n <= 0 { n := 1; }
    ghost var total := a.At(resRscale) - b.At(resRscale);
    var resBuf := SubColumns(var1, a, var2, b, resRscale, n);
    ResultIs(Mag(resBuf[..], resWeight), total, resRscale, n);
    result.dscale := resDscale;
    assert resBuf[0..0 + n] == resBuf[..];
    StripInto(result, resBuf, n, resWeight, resRscale, true, total, resRscale);
  }

  method PutDifference(res: array<digit>, i: nat, difference: int) returns (borrow: int)
    requires i < res.Length && -10 <= difference <= 9
    modifies res
    ensures -1 <= borrow <= 0 && difference == 10 * borrow + res[i] as int && res[i + 1..] == old(res[i + 1..])
  {
    if difference < 0 {
      res[i] := difference + 10;
      borrow := -1;
    } else {
      res[i] := difference;
      borrow := 0;
    }
  }

  /** The digits of the operands above the places i1 and i2 are still to be subtracted. */
  ghost predicate Subtracting(total: int, a: Mag, i1: int, b: Mag, i2: int, c: int, d: seq<digit>)
  {
    Column(total, Prefix(a.digits, i1) - Prefix(b.digits, i2), c, d)
  }

  lemma SubtractingNext(total: int, a: Mag, i1: int, b: Mag, i2: int, c: int, d: seq<digit>,
                        j1: int, j2: int, x: int, y: int, c': int, e: seq<digit>)
    requires Subtracting(total, a, i1, b, i2, c, d) && j1 == i1 - 1 && j2 == i2 - 1
    requires x == DigitAt(a.digits, j1) && y == DigitAt(b.digits, j2)
    requires e != [] && e[1..] == d && c + x - y == 10 * c' + e[0] as int
    ensures Subtracting(total, a, j1, b, j2, c', e)
  {
    ColumnNext(total, Prefix(a.digits, i1) - Prefix(b.digits, i2), c, d, Prefix(a.digits, j1) - Prefix(b.digits, j2),
               x - y, c', e);
  }

  /** One column, left of the places i1 and i2 of the operands: a digit of each and the borrow. */
  method DifferenceColumn(var1: NumericVar, ghost a: Mag, i1: int, var2: NumericVar, ghost b: Mag, i2: int,
                          res: array<digit>, i: nat, borrow0: int, ghost total: int, ghost done: seq<digit>)
    returns (borrow: int, i1': int, i2': int, ghost d: seq<digit>)
    requires var1.Valid() && var2.Valid() && a == var1.Magnitude() && b == var2.Magnitude()
    requires i < res.Length && -1 <= borrow0 <= 0 && done == res[i + 1..]
             && Subtracting(total, a, i1, b, i2, borrow0, done)
    modifies res
    ensures -1 <= borrow <= 0 && i1' == i1 - 1 && i2' == i2 - 1
    ensures d == res[i..] && Subtracting(total, a, i1', b, i2', borrow, d)
  {
    i1', i2' := i1 - 1, i2 - 1;
    var x := ColumnDigit(var1, a, i1');
    var y := ColumnDigit(var2, b, i2');
    borrow := PutDifference(res, i, borrow0 + x - y);
    d := res[i..];
    SubtractingNext(total, a, i1, b, i2, borrow0, done, i1', i2', x, y, borrow, d);
  }

  /** The column loop of SubAbs, from the least significant place of the result up. */
  method SubColumns(var1: NumericVar, ghost a: Mag, var2: NumericVar, ghost b: Mag, rscale: int, n: nat)
    returns (res: array<digit>)
    requires var1.Valid() && var2.Valid() && a == var1.Magnitude() && b == var2.Magnitude()
    requires a.weight + rscale + 1 <= n && n > 0
    requires b.At(rscale) <= a.At(rscale)
    ensures fresh(res) && res.Length == n
    ensures Prefix(res[..], n) == a.At(rscale) - b.At(rscale)
  {
    res := new digit[n];
    ColumnStart(a.At(rscale) - b.At(rscale));
    ghost var borrow := SubPlaces(var1, a, rscale + var1.weight + 1, var2, b, rscale + var2.weight + 1, res,
                                  a.At(rscale) - b.At(rscale));
    SubBorrow(a, b, rscale, n, a.At(rscale) - b.At(rscale), borrow, res[..]);
  }

  method SubPlaces(var1: NumericVar, ghost a: Mag, i10: int, var2: NumericVar, ghost b: Mag, i20: int,
                   res: array<digit>, ghost total: int)
    returns (borrow: int)
    requires var1.Valid() && var2.Valid() && a == var1.Magnitude() && b == var2.Magnitude() && res != var1.buf
             && res != var2.buf
    requires Subtracting(total, a, i10, b, i20, 0, [])
    modifies res
    ensures Subtracting(total, a, i10 - res.Length, b, i20 - res.Length, borrow, res[..])
  {
    var i1, i2, i := i10, i20, res.Length;
    borrow := 0;
    ghost var done: seq<digit> := [];
    while i > 0
      invariant 0 <= i <= res.Length && -1 <= borrow <= 0 && i10 - i1 == i20 - i2 == res.Length - i
      invariant done == res[i..] && Subtracting(total, a, i1, b, i2, borrow, done)
    {
      i := i - 1;
      borrow, i1, i2, done := DifferenceColumn(var1, a, i1, var2, b, i2, res, i, borrow, total, done);
    }
    assert res[0..] == res[..];
  }

  /** The Assert after the column loop of sub_abs: no borrow is left over. */
  lemma SubBorrow(a: Mag, b: Mag, rscale: int, n: nat, total: int, borrow: int, d: seq<digit>)
    requires a.weight + rscale + 1 <= n && n > 0 && |d| == n && b.At(rscale) <= a.At(rscale)
    requires total == a.At(rscale) - b.At(rscale)
    requires Subtracting(total, a, rscale + a.weight + 1 - n, b, rscale + b.weight + 1 - n, borrow, d)
    ensures borrow == 0 && total == Prefix(d, n)
  {
    AtBound(a, rscale, n);
    PrefixDiv(b.digits, rscale + b.weight + 1 - n, n);
    NoWhole(b.At(rscale), Prefix(b.digits, rscale + b.weight + 1 - n), Pow10(n));
    ColumnEnd(total, borrow, d);
  }

  lemma NoWhole(x: nat, p: nat, t: nat)
    requires x < t && p * t <= x
    ensures p == 0
  {
    if p >= 1 { MulMono(1, p, t); assert false; }
  }

  // ---------- signed comparison, addition and subtraction ----------

  /** A comparison of magnitudes carries over to every scale. */
  lemma CompareAtAll(a: Mag, b: Mag, s: int)
    requires Compare(a, b) >= 0
    ensures a.At(s) >= b.At(s)
  {
    var t := Max(s, Max(a.Scale(), b.Scale()));
    CompareAt(a, b, t);
    PrefixDiv(a.digits, a.weight + s + 1, t - s);
    PrefixDiv(b.digits, b.weight + s + 1, t - s);
    DivMono(b.At(t), a.At(t), Pow10(t - s));
  }

  lemma DivMono(x: nat, y: nat, d: nat)
    requires d > 0 && x <= y
    ensures x / d <= y / d
  {
    if y / d < x / d {
      MulMono(y / d + 1, x / d, d);
      assert false;
    }
  }

  /** The order of two signed values, read at a scale that keeps all their digits. */
  function CompareSigned(a: Mag, na: bool, b: Mag, nb: bool): int
  {
    var s := Max(a.Scale(), b.Scale());
    Sign(WithSign(a.At(s), na) - WithSign(b.At(s), nb))
  }

  lemma SignedUp(a: Mag, na: bool, b: Mag, nb: bool, s: int, t: int)
    requires a.Fits(s) && b.Fits(s) && s <= t
    ensures Sign(WithSign(a.At(t), na) - WithSign(b.At(t), nb)) == Sign(WithSign(a.At(s), na) - WithSign(b.At(s), nb))
  {
    IsUp(a, a.At(s), s, t);
    IsUp(b, b.At(s), s, t);
    var k := Pow10(t - s);
    SignScaled(WithSign(a.At(s), na), WithSign(b.At(s), nb), k);
    NegScaled(a.At(s), k);
    NegScaled(b.At(s), k);
  }

  lemma NegScaled(a: int, k: int)
    ensures (-a) * k == -(a * k)
  {}

  /** The signed comparison may be read off at any scale that fits both. */
  lemma CompareSignedAt(a: Mag, na: bool, b: Mag, nb: bool, s: int)
    requires a.Fits(s) && b.Fits(s)
    ensures CompareSigned(a, na, b, nb) == Sign(WithSign(a.At(s), na) - WithSign(b.At(s), nb))
  {
    var e := Max(a.Scale(), b.Scale());
    SignedUp(a, na, b, nb, e, Max(e, s));
    SignedUp(a, na, b, nb, s, Max(e, s));
  }

  /** Two zeros, one of them written with digits, that differ in having digits or else in sign. */
  predicate ZerosApart(a: Mag, na: bool, b: Mag, nb: bool)
  {
    a.Coef() == 0 && b.Coef() == 0 && (a.digits != [] || b.digits != [])
    && (a.digits == [] || b.digits == [] || na != nb)
  }

  /** What cmp_var answers for such zeros. */
  function ZerosOrder(a: Mag, na: bool, nb: bool): int
  {
    if a.digits == [] then (if nb then 1 else -1) else if na then -1 else 1
  }

  lemma ZeroAt(m: Mag, s: int)
    requires m.Scale() <= s
    ensures m.At(s) == 0 <==> m.Coef() == 0
    ensures m.digits == [] ==> m.Coef() == 0
  {
    PrefixZeros(m.digits, |m.digits|, s - m.Scale());
    NoneOrSome(m.Coef(), Pow10(s - m.Scale()));
  }

  lemma NoneOrSome(x: nat, k: nat)
    requires k > 0
    ensures x * k == 0 <==> x == 0
  {
    if x > 0 { MulMono(1, x, k); }
  }

  /** The values compared, leading zeros or not, for all operands but such zeros. */
  function CmpResult(a: Mag, na: bool, b: Mag, nb: bool): int
  {
    if ZerosApart(a, na, b, nb) then ZerosOrder(a, na, nb) else CompareSigned(a, na, b, nb)
  }

  lemma CmpResultIs(a: Mag, na: bool, b: Mag, nb: bool)
    ensures a.digits == [] ==> CmpResult(a, na, b, nb) == if b.digits == [] then 0 else if nb then 1 else -1
    ensures a.digits != [] && (b.digits == [] || na != nb) ==> CmpResult(a, na, b, nb) == if na then -1 else 1
    ensures a.digits != [] && b.digits != [] && na == nb ==>
              CmpResult(a, na, b, nb) == if na then Compare(b, a) else Compare(a, b)
  {
    var s := Max(a.Scale(), b.Scale());
    ZeroAt(a, s);
    ZeroAt(b, s);
  }

  method CmpVar(var1: NumericVar, var2: NumericVar) returns (r: int)
    requires var1.Valid() && var2.Valid() && var1.sign != NaN && var2.sign != NaN
    ensures r == CmpResult(var1.Magnitude(), var1.sign == Neg, var2.Magnitude(), var2.sign == Neg)
    ensures var1.ndigits == 0 ==> r == if var2.ndigits == 0 then 0 else if var2.sign == Neg then 1 else -1
    ensures var1.ndigits > 0 && (var2.ndigits == 0 || var1.sign != var2.sign) ==>
              r == if var1.sign == Neg then -1 else 1
  {
    CmpResultIs(var1.Magnitude(), var1.sign == Neg, var2.Magnitude(), var2.sign == Neg);
    if var1.ndigits == 0 {
      if var2.ndigits == 0 { return 0; }
      if var2.sign == Neg { return 1; }
      return -1;
    }
    if var2.ndigits == 0 {
      if var1.sign == Pos { return 1; }
      return -1;
    }
    if var1.sign == Pos {
      if var2.sign == Neg { return 1; }
      r := CmpAbs(var1, var2);
      return r;
    }
    if var2.sign == Pos { return -1; }
    r := CmpAbs(var2, var1);
  }

  /** For these zeros, and no other operands, the answer is wrong. */
  lemma CmpMissesZeros(a: Mag, na: bool, b: Mag, nb: bool)
    ensures CmpResult(a, na, b, nb) == CompareSigned(a, na, b, nb) <==> !ZerosApart(a, na, b, nb)
  {
    var s := Max(a.Scale(), b.Scale());
    ZeroAt(a, s);
    ZeroAt(b, s);
  }

  lemma LeadingNotZero(m: Mag)
    requires m.digits != [] ==> m.digits[0] != 0
    ensures m.Coef() == 0 ==> m.digits == []
  {
    if m.digits != [] { LeadBound(m.digits, |m.digits|); }
  }

  /** cmp_var on operands without leading zeros, as unpacked and computed values are. */
  method CmpLeading(var1: NumericVar, var2: NumericVar) returns (r: int)
    requires var1.Valid() && var2.Valid() && var1.sign != NaN && var2.sign != NaN
    requires var1.ndigits > 0 ==> var1.Magnitude().digits[0] != 0
    requires var2.ndigits > 0 ==> var2.Magnitude().digits[0] != 0
    ensures r == CompareSigned(var1.Magnitude(), var1.sign == Neg, var2.Magnitude(), var2.sign == Neg)
  {
    LeadingNotZero(var1.Magnitude());
    LeadingNotZero(var2.Magnitude());
    r := CmpVar(var1, var2);
  }

  method AddVar(var1: NumericVar, var2: NumericVar, result: NumericVar)
    requires var1.Valid() && var2.Valid() && var1.sign != NaN && var2.sign != NaN
    modifies result
    ensures result.buf == null || fresh(result.buf)
    ensures result.rscale == old(Max(var1.rscale, var2.rscale)) && result.dscale == old(Max(var1.dscale, var2.dscale))
    ensures result.ndigits == 0 ==> result.weight == 0
    ensures result.Holds(old(var1.Signed(Max(var1.rscale, var2.rscale)) + var2.Signed(Max(var1.rscale, var2.rscale))),
                         result.rscale)
  {
    ghost var s := Max(var1.rscale, var2.rscale);
    ghost var total := var1.Magnitude().At(s) + var2.Magnitude().At(s);
    if var1.sign == Pos {
      if var2.sign == Pos {
        AddAbs(var1, var2, result);
        result.SetSign(Pos, total, s);
      } else {
        SubOrdered(var1, var2, result, Pos, Neg);
      }
    } else {
      if var2.sign == Pos {
        SubOrdered(var1, var2, result, Neg, Pos);
      } else {
        AddAbs(var1, var2, result);
        result.SetSign(Neg, total, s);
      }
    }
  }

  method SubVar(var1: NumericVar, var2: NumericVar, result: NumericVar)
    requires var1.Valid() && var2.Valid() && var1.sign != NaN && var2.sign != NaN
    modifies result
    ensures result.buf == null || fresh(result.buf)
    ensures result.rscale == old(Max(var1.rscale, var2.rscale)) && result.dscale == old(Max(var1.dscale, var2.dscale))
    ensures result.ndigits == 0 ==> result.weight == 0
    ensures result.Holds(old(var1.Signed(Max(var1.rscale, var2.rscale)) - var2.Signed(Max(var1.rscale, var2.rscale))),
                         result.rscale)
  {
    ghost var s := Max(var1.rscale, var2.rscale);
    ghost var total := var1.Magnitude().At(s) + var2.Magnitude().At(s);
    if var1.sign == Pos {
      if var2.sign == Neg {
        AddAbs(var1, var2, result);
        result.SetSign(Pos, total, s);
      } else {
        SubOrdered(var1, var2, result, Pos, Neg);
      }
    } else {
      if var2.sign == Neg {
        SubOrdered(var1, var2, result, Neg, Pos);
      } else {
        AddAbs(var1, var2, result);
        result.SetSign(Neg, total, s);
      }
    }
  }

  /** The three-way switch of AddVar and SubVar: the smaller magnitude is taken from the
      larger, and the result has sign first when var1 is the larger and sign second otherwise. */
  method SubOrdered(var1: NumericVar, var2: NumericVar, result: NumericVar, first: NumericSign, second: NumericSign)
    requires var1.Valid() && var2.Valid()
    requires (first == Pos && second == Neg) || (first == Neg && second == Pos)
    modifies result
    ensures result.buf == null || fresh(result.buf)
    ensures result.rscale == old(Max(var1.rscale, var2.rscale)) && result.dscale == old(Max(var1.dscale, var2.dscale))
    ensures var d: int := old(var1.Magnitude().At(Max(var1.rscale, var2.rscale)) as int
                             - var2.Magnitude().At(Max(var1.rscale, var2.rscale)) as int);
            (result.ndigits == 0 ==> result.weight == 0) && result.Holds(if first == Pos then d else -d, result.rscale)
  {
    ghost var a, b, s := var1.Magnitude(), var2.Magnitude(), Max(var1.rscale, var2.rscale);
    var stat := CmpAbs(var1, var2);
    if stat == 0 {
      CompareAtAll(a, b, s);
      CompareAtAll(b, a, s);
      ZeroResult(result, Max(var1.rscale, var2.rscale), Max(var1.dscale, var2.dscale));
    } else if stat == 1 {
      CompareAtAll(a, b, s);
      SubSigned(var1, var2, result, first, a.At(s), b.At(s), s);
    } else {
      CompareAtAll(b, a, s);
      SubSigned(var2, var1, result, second, b.At(s), a.At(s), s);
    }
  }

  method ZeroResult(result: NumericVar, rscale: int, dscale: int)
    modifies result
    ensures result.buf == null && result.rscale == rscale && result.dscale == dscale
    ensures result.weight == 0 && result.Holds(0, rscale)
  {
    result.ZeroVar();
    AllZero(Mag([], 0), rscale);
    result.rscale := rscale;
    result.dscale := dscale;
  }

  /** sub_abs with the larger magnitude first, and the sign set. */
  method SubSigned(var1: NumericVar, var2: NumericVar, result: NumericVar, sign: NumericSign, ghost x: nat,
                   ghost y: nat, ghost s: int)
    requires var1.Valid() && var2.Valid() && sign != NaN && s == Max(var1.rscale, var2.rscale)
    requires x == var1.Magnitude().At(s) && y == var2.Magnitude().At(s) && y <= x
    modifies result
    ensures fresh(result.buf) && result.rscale == s && result.dscale == old(Max(var1.dscale, var2.dscale))
    ensures (result.ndigits == 0 ==> result.weight == 0) && result.Holds(if sign == Neg then y - x else x - y, s)
  {
    SubAbs(var1, var2, result);
    result.SetSign(sign, x - y, s);
  }
}
