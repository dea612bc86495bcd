/** The square root by Newton's iteration: termination and accuracy. */
module SquareRoot {
  import opened Decimal
  import opened Magnitudes
  import opened Variables
  import opened AddSub
  import opened Division
  import opened Packed
  import opened Quotients

  // ---------- the iteration on whole numbers ----------

  /** One round of the loop, in units of 10^-s: x becomes the rounded mean of x and the rounded
      quotient.  c is twice the argument in units of 10^-2s, cut off. */
  function NewtonQuotient(c: nat, x: nat): nat
    requires x > 0
  {
    (c + x) / (2 * x)
  }

  function Newton(c: nat, x: nat): nat
    requires x > 0
  {
    (x + NewtonQuotient(c, x) + 1) / 2
  }

  /** x is at most a quarter below the root of c / 2. */
  ghost predicate NotBelow(c: nat, x: nat) { 8 * c <= (4 * x + 1) * (4 * x + 1) }

  lemma QuotientBounds(c: nat, x: nat)
    requires x > 0
    ensures var r := NewtonQuotient(c, x); 2 * (x * r) <= c + x < 2 * (x * r) + 2 * x
  {
    var r := NewtonQuotient(c, x);
    assert c + x == r * (2 * x) + (c + x) % (2 * x);
    assert r * (2 * x) == 2 * (x * r);
  }

  /** The mean of x and c/2x never falls short of the root: whatever x was, the next value is NotBelow. */
  lemma NewtonNotBelow(c: nat, x: nat)
    requires x > 0
    ensures NotBelow(c, Newton(c, x))
  {
    var r, y := NewtonQuotient(c, x), Newton(c, x);
    QuotientBounds(c, x);
    MeanSquare(x, r);
    SquareMono(2 * x + 2 * r + 1, 4 * y + 1);
  }

  lemma MeanSquare(x: int, r: int)
    ensures (2 * x + 2 * r + 1) * (2 * x + 2 * r + 1) >= 16 * (x * r) + 8 * x - 8
  {
    var d := x - r;
    assert (2 * x + 2 * r + 1) * (2 * x + 2 * r + 1) == 4 * (d * d) + 16 * (x * r) + 4 * x + 4 * r + 1;
    assert d * d >= d by { if d >= 1 { MulMono(1, d, d); } }
  }

  lemma SquareMono(a: nat, b: nat)
    requires a <= b
    ensures a * a <= b * b
  {
    MulMono(a, b, a);
    MulMono(a, b, b);
  }

  /** From a value that is NotBelow the iteration falls, stays, or rises by one and then stays. */
  lemma NewtonMoves(c: nat, x: nat)
    requires x > 0 && NotBelow(c, x)
    ensures c <= 2 * (x * x) + x
    ensures Newton(c, x) <= x + 1
    ensures Newton(c, x) == x + 1 ==> Newton(c, x + 1) == x + 1
  {
    var r := NewtonQuotient(c, x);
    QuotientBounds(c, x);
    assert (4 * x + 1) * (4 * x + 1) == 8 * (2 * (x * x) + x) + 1;
    assert (x + 2) * x == x * x + 2 * x;
    assert r <= x + 1 by {
      if r >= x + 2 { MulMono(x + 2, r, x); assert false; }
    }
    if Newton(c, x) == x + 1 {
      assert r == x + 1;
      assert x * (x + 1) == x * x + x;
      assert c == 2 * (x * x) + x;
      assert (x + 1) * (2 * x) == 2 * (x * x) + 2 * x;
      DivUnique(c + (x + 1), 2 * (x + 1), x, 1);
    }
  }

  lemma TwiceSquare(x: int)
    ensures (x - 1) * (2 * x) == 2 * (x * x) - 2 * x && (x + 1) * (2 * x) == 2 * (x * x) + 2 * x
  {}

  /** The exact condition on c for x to be a fixed point. */
  lemma NewtonFixed(c: nat, x: nat)
    requires x > 0
    ensures Newton(c, x) == x <==> 2 * (x * x) - 3 * x <= c < 2 * (x * x) + x
  {
    TwiceSquare(x);
    FloorAtLeast(c + x, 2 * x, x - 1);
    FloorAtLeast(c + x, 2 * x, x + 1);
  }

  lemma FixedQuarters(c: nat, x: nat)
    requires x > 0 && 2 * (x * x) - 3 * x <= c < 2 * (x * x) + x
    ensures 2 * ((x - 1) * (x - 1)) <= c && 8 * (c + 1) < (4 * x + 1) * (4 * x + 1)
  {
    assert (x - 1) * (x - 1) == x * x - 2 * x + 1;
    assert (4 * x + 1) * (4 * x + 1) == 8 * (2 * (x * x) + x) + 1;
  }

  /** So a fixed point is above the root of u / v by one at most, and below it by less than a quarter. */
  lemma FixedNear(c: nat, x: nat, u: nat, v: nat)
    requires x > 0 && Newton(c, x) == x && v > 0 && c * v <= 2 * u < (c + 1) * v
    ensures (x - 1) * (x - 1) * v <= u && 16 * u < (4 * x + 1) * (4 * x + 1) * v
  {
    assert 2 * (x * x) - 3 * x <= c < 2 * (x * x) + x by { NewtonFixed(c, x); }
    FixedQuarters(c, x);
    Bracketed(c, u, v, (x - 1) * (x - 1), (4 * x + 1) * (4 * x + 1));
  }

  lemma Bracketed(c: nat, u: nat, v: nat, lo: nat, hi: nat)
    requires v > 0 && c * v <= 2 * u < (c + 1) * v && 2 * lo <= c && 8 * (c + 1) < hi
    ensures lo * v <= u && 16 * u < hi * v
  {
    MulMono(2 * lo, c, v);
    MulAssoc(2, lo, v);
    MulMono(8 * (c + 1), hi, v);
    MulAssoc(8, c + 1, v);
  }

  lemma SquareAtLeast(d: int)
    ensures d * d >= d && d * d >= -d
  {
    if d >= 1 { MulMono(1, d, d); }
    if d <= -1 { MulMono(1, -d, -d); }
  }

  lemma SquareOfDifference(x: int, y: int)
    ensures (y - x) * (y - x) == y * y - 2 * (x * y) + x * x && (2 * y - x) * x == 2 * (x * y) - x * x
  {}

  /** Two neighbours y and y + 1 can both be fixed points.  A step leads to the smaller one from nowhere else. */
  lemma NewtonAvoids(c: nat, x: nat, y: nat)
    requires x > 0 && y == Newton(c, x) && c == 2 * (y * y) + y - 1
    ensures x == y
  {
    var r := NewtonQuotient(c, x);
    QuotientBounds(c, x);
    assert r * x <= (2 * y - x) * x by { MulMono(r, 2 * y - x, x); }
    SquareOfDifference(x, y);
    SquareAtLeast(y - x);
  }

  /** Of two fixed points the smaller is met only by a first guess, and a guess does not end in nine. */
  ghost predicate Untrapped(c: nat, x: nat) { c == 2 * (x * x) + x - 1 ==> x % 10 != 9 }

  lemma StaysUntrapped(c: nat, x: nat)
    requires x > 0 && Untrapped(c, x)
    ensures Untrapped(c, Newton(c, x))
  {
    var y := Newton(c, x);
    if c == 2 * (y * y) + y - 1 { NewtonAvoids(c, x, y); }
  }

  /** The measure that falls in every round after the first until the loop stops. */
  function Rank(c: nat, x: nat): nat
    requires x > 0
  {
    if Newton(c, x) == x then 0 else if Newton(c, x) == x + 1 then 1 else x + 2
  }

  lemma RankFalls(c: nat, x: nat)
    requires x > 0 && NotBelow(c, x) && Newton(c, x) != x && Newton(c, x) > 0
    ensures Rank(c, Newton(c, x)) < Rank(c, x)
  {
    NewtonMoves(c, x);
  }

  /** Values below a power of ten stay below it. */
  lemma NewtonBound(c: nat, x: nat, lim: nat)
    requires 0 < x < lim && 10 <= lim && c < 2 * lim
    ensures 0 < Newton(c, x) < lim
  {
    var r := NewtonQuotient(c, x);
    QuotientBounds(c, x);
    if x == 1 {
      assert r <= lim;
    } else {
      assert r <= lim / 2 + 1 by {
        assert x * r - x == x * (r - 1);
        if r >= lim / 2 + 2 { MulMono(2, x, r - 1); assert false; }
      }
    }
  }

  // ---------- the iteration on variables ----------

  /** Twice the argument a / 10^r in units of 10^-2s, cut off. */
  function Twice(a: nat, r: int, s: int): nat { Cut(2 * a, r - 2 * s) }

  /** Dividing twice, once through 10^k and once through n, cuts off like dividing once. */
  lemma DivTwice(u: nat, k: nat, n: nat)
    requires k > 0 && n > 0
    ensures n * k > 0 && u / (n * k) == (u / k) / n
  {
    MulMono(1, n, k);
    var q, r := u / k, u % k;
    var q', r' := q / n, q % n;
    assert u == q * k + r && q == q' * n + r';
    MulMono(r' + 1, n, k);
    Distribute(r', 1, k);
    MulMono(0, r', k);
    Distribute(q' * n, r', k);
    MulAssoc(q', n, k);
    DivUnique(u, n * k, q', r' * k + r);
  }

  lemma ShiftDiv(a: nat, x: nat, k: nat)
    requires k > 0
    ensures (a + x * k) / k == a / k + x
  {
    var q, r := a / k, a % k;
    Distribute(q, x, k);
    DivUnique(a + x * k, k, q + x, r);
  }

  /** The quotient rounded by div_var is the one of the whole-number iteration. */
  lemma QuotientIsNewton(a: nat, r: int, x: nat, s: int)
    requires x > 0
    ensures Quotient(a, r, x, s, s) == NewtonQuotient(Twice(a, r, s), x)
  {
    var k := 2 * s - r;
    if k >= 0 {
      MulAssoc(2, a, Pow10(k));
    } else {
      var t := Pow10(-k);
      MulMono(1, x, t);
      ShiftDiv(2 * a, x, t);
      DivTwice(2 * a + x * t, t, 2 * x);
      MulAssoc(2, x, t);
    }
  }

  lemma ExponentBelow(w: nat, n: nat, lim: nat)
    requires Pow10(w) <= n < Pow10(lim)
    ensures w < lim
  {
    if lim <= w { Pow10Mono(lim, w); }
  }

  /** The argument: positive, with a leading digit. */
  ghost predicate Positive(arg: NumericVar, a: Mag)
    reads arg, arg.buf
  {
    arg.Valid() && arg.sign == Pos && a == arg.Magnitude() && a.digits != [] && a.digits[0] != 0
  }

  /** c is twice the argument a in units of 10^-2s, cut off. */
  ghost predicate IsTwice(c: nat, a: Mag, n: nat, r: int, s: int)
  {
    a.Is(n, r) && c == Twice(n, r, s)
  }

  ghost predicate IsTwo(v: NumericVar)
    reads v, v.buf
  {
    v.Valid() && v.sign == Pos && v.Magnitude() == Mag([2], 0)
  }

  lemma TwiceBound(a: Mag, n: nat, r: int, s: int)
    requires a.Is(n, r) && a.digits != [] && a.digits[0] != 0 && a.weight + 2 * s >= 0
    ensures Twice(n, r, s) < 2 * Pow10(a.weight + 2 * s + 1)
  {
    var w, k := a.weight + r + 1, r - 2 * s;
    LeadSize(a, n, r);
    if k <= 0 {
      Pow10Add(w, -k);
      ProductBelow(2 * n, 2 * Pow10(w), Pow10(-k));
      MulAssoc(2, Pow10(w), Pow10(-k));
    } else {
      Pow10Add(w - k, k);
      MulAssoc(2, Pow10(w - k), Pow10(k));
      DivBelow(2 * n, 2 * Pow10(w - k), Pow10(k));
    }
  }

  lemma DivBelow(u: nat, v: nat, k: nat)
    requires k > 0 && u < v * k
    ensures u / k < v
  {
    if u / k >= v { MulMono(v, u / k, k); assert false; }
  }

  lemma ZeroHolds(v: NumericVar, s: int)
    requires v.Valid() && v.ndigits == 0 && v.sign != NaN
    ensures v.Holds(0, s)
  {
    AllZero(v.Magnitude(), s);
  }

  method CopyHeld(src: NumericVar, dest: NumericVar, ghost n: int, ghost s: int)
    requires src.Holds(n, s) && src != dest
    modifies dest
    ensures dest.Holds(n, s)
  {
    dest.SetVarFromVar(src);
  }

  /** One round of the loop on the working values, in units of 10^-s: both the value m and the quotient are
      cut off at that scale by the addition. */
  function Step(a: Mag, m: Mag, s: int): nat
    requires m.Coef() > 0
  {
    var t := QuotientScale(a, m, s);
    (m.At(s) + Cut(QuotientOf(a, m, t), t - s) + 1) / 2
  }

  /** add_var into its first operand, which cuts the second one off. */
  method AddCut(v: NumericVar, ghost x: nat, w: NumericVar, ghost q: nat, ghost t: int, ghost s: int, ghost u: nat)
    requires v.Valid() && v.sign == Pos && v.Magnitude().At(s) == x && w.Holds(q, t) && u == Cut(q, t - s)
    requires v.rscale == s && w.rscale == s && v != w
    modifies v
    ensures v.Holds(x + u, s) && v.rscale == s
  {
    AtCut(w.Magnitude(), q, t, s);
    CutZero(t - s);
    AddVar(v, w, v);
  }

  /** The addition and the second division of the loop body of sqrt_var. */
  method AddAndHalve(result: NumericVar, ghost x: nat, tmpVal: NumericVar, ghost q: nat, ghost t: int, two: NumericVar,
                     rscale: nat, ghost u: nat, ghost y: nat)
    returns (ghost m: Mag)
    requires result.Valid() && result.sign == Pos && result.Magnitude().At(rscale) == x && result.rscale == rscale
    requires tmpVal.Holds(q, t) && tmpVal.rscale == rscale && u == Cut(q, t - rscale) && y == (x + u + 1) / 2
    requires IsTwo(two) && result != tmpVal && result != two
    modifies result
    ensures result.Valid() && result.sign == Pos && m == result.Magnitude() && m.Exactly(y, rscale)
            && result.rscale == rscale
  {
    AddCut(result, x, tmpVal, q, t, rscale, u);
    Halve(result, two, rscale, x + u);
    m := result.Magnitude();
  }

  lemma HalfOf(m: Mag, z: nat, rscale: int)
    requires m.Is(z, rscale)
    ensures Mag([2], 0).Coef() > 0 && QuotientOf(m, Mag([2], 0), rscale) == (z + 1) / 2
  {
    QuotientIs(m, z, rscale, Mag([2], 0), 2, 0, rscale);
    assert z * Pow10(0) == z;
  }

  /** The division by two; a sum that was cut off to nothing stays zero. */
  method Halve(result: NumericVar, two: NumericVar, rscale: nat, ghost z: nat)
    requires IsTwo(two) && result != two
    requires result.Holds(z, rscale)
    modifies result
    ensures result.Holds((z + 1) / 2, rscale) && result.rscale == rscale && result.sign == Pos
  {
    ghost var m, b := result.Magnitude(), Mag([2], 0);
    ghost var t := QuotientScale(m, b, rscale);
    NonZero(b);
    ghost var q := QuotientOf(m, b, t);
    HalvedIs(m, z, rscale, q, t);
    DivideHeld(result, two, b, rscale, z, rscale, q, t);
    if z == 0 { ZeroHeld(result, t, rscale); }
  }

  lemma HalvedIs(m: Mag, z: nat, rscale: nat, q: nat, t: int)
    requires m.Exactly(z, rscale) && Mag([2], 0).Coef() > 0
    requires t == QuotientScale(m, Mag([2], 0), rscale) && q == QuotientOf(m, Mag([2], 0), t)
    ensures q == (z + 1) / 2 && (z > 0 ==> t == rscale)
  {
    StrippedSize(m, z, rscale);
    if z == 0 { ZeroQuotient(m, Mag([2], 0), t); } else { HalfOf(m, z, rscale); }
  }

  /** div_var into its own dividend, by a positive divisor. */
  method DivideHeld(v: NumericVar, divisor: NumericVar, ghost b: Mag, rscale: int, ghost z: nat, ghost s: int,
                    ghost q: nat, ghost t: int)
    requires v.Holds(z, s) && divisor.Valid() && divisor.sign == Pos && b == divisor.Magnitude() && v != divisor
    requires b.digits != [] && b.digits[0] != 0 && b.Coef() > 0
    requires t == QuotientScale(v.Magnitude(), b, rscale) && q == QuotientOf(v.Magnitude(), b, t)
    modifies v
    ensures v.Holds(q, t) && v.rscale == rscale && v.sign == Pos
  {
    StrippedSize(v.Magnitude(), z, s);
    if z == 0 { ZeroQuotient(v.Magnitude(), b, t); }
    var ex := DivVar(v, divisor, v, rscale);
    StrippedSize(v.Magnitude(), q, t);
  }

  lemma ZeroHeld(v: NumericVar, t: int, s: int)
    requires v.Holds(0, t)
    ensures v.Holds(0, s)
  {
    StrippedSize(v.Magnitude(), 0, t);
    ZeroHolds(v, s);
  }

  /** The first division of the loop body.  It fails when the last round left zero. */
  method DivideArg(arg: NumericVar, ghost a: Mag, result: NumericVar, ghost m: Mag, tmpVal: NumericVar, rscale: int,
                   ghost q: nat, ghost t: int)
    returns (ex: DecimalException)
    requires Positive(arg, a) && result.Valid() && result.sign != NaN && m == result.Magnitude()
             && tmpVal !in {arg, result}
    requires m.digits != [] ==> result.sign == Pos && m.digits[0] != 0 && m.Coef() > 0
                                && t == QuotientScale(a, m, rscale) && q == QuotientOf(a, m, t)
    modifies tmpVal
    ensures ex == if m.digits == [] then DivideByZero else NoError
    ensures ex == NoError ==> tmpVal.Holds(q, t) && tmpVal.rscale == rscale
  {
    ex := DivVar(arg, result, tmpVal, rscale);
  }

  // ---------- the first guess ----------

  /** C division truncates toward zero. */
  function HalfWeight(w: int): int { if w >= 0 then w / 2 else -(-w / 2) }

  function HalfDigit(d: digit): (h: digit)
    ensures 1 <= h <= 4 && d + 1 <= 4 * h
  {
    if d / 2 == 0 then 1 else d / 2
  }

  /** Half the first digit, but not zero, at half the weight. */
  function Guess(a: Mag): (m: Mag)
    requires a.digits != []
  {
    Mag([HalfDigit(a.digits[0])], HalfWeight(a.weight))
  }

  /** The one digit of the guess for each first digit, and half the weight without its fraction. */
  lemma GuessFields(a: Mag, w: int)
    requires a.digits != [] && w == Guess(a).weight
    ensures Guess(a).digits == [[1, 1, 1, 1, 2, 2, 3, 3, 4, 4][a.digits[0]]]
    ensures if a.weight >= 0 then 2 * w <= a.weight <= 2 * w + 1 else 2 * w - 1 <= a.weight <= 2 * w
  {}

  lemma GuessIs(d: digit, weight: int, s: int)
    requires weight + s >= 0
    ensures Mag([d], weight).Is(d as int * Pow10(weight + s), s)
  {
    PrefixZeros([d], 1, weight + s);
    assert Prefix([d], 0 + 1) == d as int;
  }

  lemma GuessBound(d: digit, weight: nat, lim: nat, x: nat)
    requires d != 0 && weight < lim && x == d as int * Pow10(weight)
    ensures 0 < x < Pow10(lim)
  {
    MulMono(1, d, Pow10(weight));
    MulMono(d, 9, Pow10(weight));
    Pow10Mono(weight + 1, lim);
  }

  method FirstGuess(arg: NumericVar, ghost a: Mag, result: NumericVar, rscale: int)
    requires Positive(arg, a) && result != arg
    modifies result
    ensures Positive(result, Guess(a)) && result.rscale == rscale
  {
    var d: digit := arg.buf[arg.start] / 2;
    if d == 0 { d := 1; }
    var b := new digit[1](_ => d);
    result.SetDigits(b, 0, 1, HalfWeight(arg.weight), rscale);
    assert b[0..0 + 1] == [d];
    SetPos(result, Guess(a));
  }

  method SetPos(result: NumericVar, ghost m: Mag)
    requires result.Valid() && m == result.Magnitude() && m.digits != [] && m.digits[0] != 0
    modifies result`sign
    ensures Positive(result, m)
  {
    result.sign := Pos;
  }

  // ---------- the rounds, by the size of the argument ----------

  /** The value after x: a Newton step for an argument that shows at scale 2s, that is w = weight + 2s >= 0.
      For a smaller one the quotient is cut off to nothing, or joins a single unit. */
  function Next(w: int, c: nat, x: nat): nat
    requires w >= 0 ==> x > 0
  {
    if w >= 0 then Newton(c, x) else (x + 1) / 2
  }

  /** Where the loop may stop. */
  ghost predicate Settled(w: int, c: nat, x: nat)
  {
    (w >= 0 ==> x > 0 && Newton(c, x) == x && Untrapped(c, x)) && (w == -1 ==> x == 1) && (w <= -2 ==> x == 0)
  }

  /** The value m of the result in the loop; for w <= -2 it is still the guess, far below 10^-s. */
  ghost predicate Iterate(a: Mag, s: int, m: Mag, x: nat)
  {
    var w := a.weight + 2 * s;
    && a.digits != [] && m.digits != [] && m.digits[0] != 0 && m.At(s) == x
    && (w >= 0 ==> m.Is(x, s) && 0 < x < Pow10(w + 1))
    && (w == -1 ==> m.Is(x, s) && 1 <= x <= 4)
    && (w <= -2 ==> m == Guess(a))
  }

  lemma StartIterates(a: Mag, s: nat)
    requires a.digits != [] && a.digits[0] != 0
    ensures Iterate(a, s, Guess(a), Guess(a).At(s))
  {
    var w, hw, d := a.weight + 2 * s, HalfWeight(a.weight), HalfDigit(a.digits[0]);
    if w >= -1 { GuessIs(d, hw, s); }
    if w >= 0 { GuessBound(d, hw + s, w + 1, d as int * Pow10(hw + s)); }
    if w == -1 { assert hw + s == 0; }
  }

  lemma NewtonStep(a: Mag, n: nat, r: int, s: int, m: Mag, x: nat, c: nat)
    requires IsTwice(c, a, n, r, s) && Iterate(a, s, m, x) && a.weight + 2 * s >= 0
    ensures m.Coef() > 0 && Step(a, m, s) == Newton(c, x)
  {
    LeadSize(m, x, s);
    ExponentBelow(m.weight + s, x, a.weight + 2 * s + 1);
    NonZero(m);
    QuotientIs(a, n, r, m, x, s, s);
    QuotientIsNewton(n, r, x, s);
    StepAtScale(a, m, s, x, NewtonQuotient(c, x));
  }

  lemma StepAtScale(a: Mag, m: Mag, s: int, x: nat, f: nat)
    requires m.Coef() > 0 && m.At(s) == x && QuotientScale(a, m, s) == s && f == QuotientOf(a, m, s)
    ensures Step(a, m, s) == (x + f + 1) / 2
  {
    assert f * Pow10(0) == f;
  }

  /** The first digit bounds the argument. */
  lemma LeadDigitSize(a: Mag, n: nat, r: int)
    requires a.Is(n, r) && a.digits != [] && a.digits[0] != 0
    ensures a.weight + r >= 0 && n < (a.digits[0] as int + 1) * Pow10(a.weight + r)
  {
    var k := a.weight + r;
    LeadSize(a, n, r);
    PrefixSplit(a.digits, 1, k);
    PrefixBound(a.digits[1..], k);
    assert Prefix(a.digits, 1) == a.digits[0];
    Distribute(a.digits[0], 1, Pow10(k));
  }

  /** The quotient of a small argument, taken to as many places as it has no digits for. */
  lemma SmallQuotientOf(a: Mag, n: nat, r: int, m: Mag, x: nat, e: int, t: int)
    requires a.Is(n, r) && a.digits != [] && a.digits[0] != 0 && m.Is(x, e) && x > 0 && m.Coef() > 0
             && t == -a.weight - e
    ensures a.weight + r >= 0 && x * Pow10(a.weight + r) > 0
            && QuotientOf(a, m, t) == RoundDiv(n, x * Pow10(a.weight + r))
  {
    LeadSize(a, n, r);
    MulMono(1, x, Pow10(a.weight + r));
    QuotientIs(a, n, r, m, x, e, t);
    assert n * Pow10(0) == n && x * Pow10(0) == x;
  }

  lemma RoundAtMost(n: nat, b: nat, g: nat)
    requires b > 0 && n < g * b
    ensures RoundDiv(n, b) <= g
  {
    RoundDivBounds(n, b);
    var q := RoundDiv(n, b);
    if q >= g + 1 {
      MulMono(g + 1, q, b);
      Distribute(g, 1, b);
      assert false;
    }
  }

  /** A quotient by x, for a first digit d of the argument with d + 1 <= g * x, is at most g. */
  lemma SmallRound(n: nat, d: nat, p: nat, x: nat, g: nat)
    requires n < (d + 1) * p && p > 0 && x > 0 && d + 1 <= g * x
    ensures x * p > 0 && RoundDiv(n, x * p) <= g
  {
    MulMono(1, x, p);
    MulMono(d + 1, g * x, p);
    MulAssoc(g, x, p);
    RoundAtMost(n, x * p, g);
  }

  lemma CutBelowTen(q: nat, k: nat)
    requires k >= 1
    ensures q <= 9 ==> Cut(q, k) == 0
    ensures q <= 10 && k == 1 ==> Cut(q, k) <= 1
  {
    Pow10Mono(1, k);
    assert Pow10(1) == 10;
    if q <= 9 { DivUnique(q, Pow10(k), 0, q); }
  }

  /** An argument just below 10^-2s: the quotient adds nothing, or one unit to one unit. */
  lemma EdgeStep(a: Mag, n: nat, r: int, s: int, m: Mag, x: nat)
    requires a.Is(n, r) && a.digits != [] && a.digits[0] != 0 && Iterate(a, s, m, x) && a.weight + 2 * s == -1
    ensures m.Coef() > 0 && Step(a, m, s) == (x + 1) / 2
  {
    LeadSize(m, x, s);
    assert Pow10(1) == 10;
    ExponentBelow(m.weight + s, x, 1);
    NonZero(m);
    LeadDigitSize(a, n, r);
    SmallQuotientOf(a, n, r, m, x, s, s + 1);
    SmallRound(n, a.digits[0], Pow10(a.weight + r), x, if x == 1 then 10 else 5);
    CutBelowTen(QuotientOf(a, m, s + 1), 1);
  }

  /** An argument further below: the guess and the quotient are both cut off to nothing. */
  lemma TinyStep(a: Mag, n: nat, r: int, s: int, m: Mag, t: int)
    requires a.Is(n, r) && a.digits != [] && a.digits[0] != 0 && m == Guess(a) && a.weight + 2 * s <= -2 && s >= 0
    requires t == m.weight - a.weight
    ensures m.At(s) == 0 && m.Coef() > 0 && Step(a, m, s) == 0
  {
    var d, hw := HalfDigit(a.digits[0]), m.weight;
    GuessIs(d, hw, -hw);
    assert d as int * Pow10(0) == d as int;
    NonZero(m);
    LeadDigitSize(a, n, r);
    SmallQuotientOf(a, n, r, m, d, -hw, t);
    SmallRound(n, a.digits[0], Pow10(a.weight + r), d, 4);
    CutBelowTen(QuotientOf(a, m, t), t - s);
  }

  /** What a round of the loop makes of the value x. */
  lemma StepIs(a: Mag, n: nat, r: int, s: nat, m: Mag, x: nat, c: nat)
    requires IsTwice(c, a, n, r, s) && Iterate(a, s, m, x) && a.digits[0] != 0
    ensures m.Coef() > 0 && Step(a, m, s) == Next(a.weight + 2 * s, c, x)
  {
    var w := a.weight + 2 * s;
    if w >= 0 {
      NewtonStep(a, n, r, s, m, x, c);
    } else if w == -1 {
      EdgeStep(a, n, r, s, m, x);
    } else {
      TinyStep(a, n, r, s, m, m.weight - a.weight);
    }
  }

  /** The value after a round, for an argument not below 10^-(2s+1). */
  lemma NextBound(a: Mag, n: nat, r: int, s: nat, m: Mag, x: nat, c: nat, y: nat)
    requires IsTwice(c, a, n, r, s) && Iterate(a, s, m, x) && a.digits[0] != 0 && y == Next(a.weight + 2 * s, c, x)
    ensures a.weight + 2 * s >= 0 ==> 0 < y < Pow10(a.weight + 2 * s + 1) && NotBelow(c, y)
    ensures a.weight + 2 * s == -1 ==> 1 <= y <= 2
    ensures a.weight + 2 * s <= -2 ==> y == 0
  {
    var w := a.weight + 2 * s;
    if w >= 0 {
      TwiceBound(a, n, r, s);
      Pow10Mono(1, w + 1);
      NewtonBound(c, x, Pow10(w + 1));
      NewtonNotBelow(c, x);
    } else if w <= -2 {
      TinyStep(a, n, r, s, m, m.weight - a.weight);
    }
  }

  /** What falls from one round to the next. */
  function Measure(w: int, c: nat, x: nat): nat
    requires w >= 0 ==> x > 0
  {
    if w >= 0 then Rank(c, x) else x
  }

  lemma MeasureFalls(w: int, c: nat, x: nat, y: nat)
    requires (w >= 0 ==> x > 0 && NotBelow(c, x) && y > 0) && (w == -1 ==> 1 <= x <= 2) && w >= -1
    requires y == Next(w, c, x) && y != x
    ensures Measure(w, c, y) < Measure(w, c, x)
  {
    if w >= 0 { RankFalls(c, x); }
  }

  // ---------- the loop ----------

  /** cmp_var finds the last value equal to the magnitude m. */
  ghost predicate Repeats(l: Mag, ln: bool, m: Mag)
  {
    !ZerosApart(l, ln, m, false) && CompareSigned(l, ln, m, false) == 0
  }

  lemma RepeatsHeld(l: Mag, ln: bool, last: nat, m: Mag, y: nat, s: int)
    requires l.Exactly(last, s) && (last > 0 ==> !ln) && m.Exactly(y, s)
    ensures Repeats(l, ln, m) <==> y == last
  {
    StrippedSize(l, last, s);
    StrippedSize(m, y, s);
    CompareSignedAt(l, ln, m, false, s);
  }

  lemma RepeatsNothing(l: Mag, ln: bool, m: Mag, y: nat, s: int)
    requires l.digits == [] && m.Exactly(y, s)
    ensures Repeats(l, ln, m) <==> y == 0
  {
    StrippedSize(m, y, s);
    AllZero(l, s);
    CompareSignedAt(l, ln, m, false, s);
  }

  /** The comparison of the loop body, and the copy kept for the next round. */
  method KeepLast(lastVal: NumericVar, ghost l: Mag, ghost ln: bool, result: NumericVar, ghost m: Mag)
    returns (stat: int)
    requires lastVal.Valid() && lastVal.sign != NaN && l == lastVal.Magnitude() && ln == (lastVal.sign == Neg)
    requires result.Valid() && result.sign == Pos && m == result.Magnitude() && result != lastVal
    modifies lastVal
    ensures stat == 0 <==> Repeats(l, ln, m)
    ensures stat != 0 ==> lastVal.Valid() && lastVal.sign == Pos && lastVal.Magnitude() == m
  {
    stat := CmpVar(lastVal, result);
    if stat != 0 { lastVal.SetVarFromVar(result); }
  }

  /** The arithmetic of the loop body of sqrt_var: the next value. */
  method SqrtStep(arg: NumericVar, ghost a: Mag, result: NumericVar, ghost m: Mag, tmpVal: NumericVar, two: NumericVar,
                  rscale: nat, ghost y: nat)
    returns (ex: DecimalException, ghost m': Mag)
    requires Positive(arg, a) && IsTwo(two) && arg !in {result, tmpVal} && two !in {result, tmpVal} && result != tmpVal
    requires result.Valid() && result.sign == Pos && m == result.Magnitude() && result.rscale == rscale
    requires m.digits != [] ==> m.digits[0] != 0 && m.Coef() > 0 && y == Step(a, m, rscale)
    modifies result, tmpVal
    ensures ex == if m.digits == [] then DivideByZero else NoError
    ensures ex == NoError ==>
              result.Valid() && result.sign == Pos && result.rscale == rscale && m' == result.Magnitude()
                              && m'.Exactly(y, rscale)
  {
    m' := m;
    ghost var t, q := QuotientScale(a, m, rscale), 0;
    if m.digits != [] {
      q := QuotientOf(a, m, t);
    }
    ex := DivideArg(arg, a, result, m, tmpVal, rscale, q, t);
    if ex != NoError { return; }
    m' := AddAndHalve(result, m.At(rscale), tmpVal, q, t, two, rscale, Cut(q, t - rscale), y);
  }

  /** The loop body of sqrt_var. */
  method SqrtRound(arg: NumericVar, ghost a: Mag, result: NumericVar, ghost m: Mag, tmpVal: NumericVar,
                   lastVal: NumericVar, ghost l: Mag, ghost ln: bool, two: NumericVar, rscale: nat, ghost y: nat)
    returns (stat: int, ex: DecimalException, ghost m': Mag)
    requires Positive(arg, a) && IsTwo(two) && arg !in {result, tmpVal, lastVal} && two !in {result, tmpVal, lastVal}
    requires result != tmpVal && result != lastVal && tmpVal != lastVal
    requires result.Valid() && result.sign == Pos && m == result.Magnitude() && result.rscale == rscale
    requires m.digits != [] ==> m.digits[0] != 0 && m.Coef() > 0 && y == Step(a, m, rscale)
    requires lastVal.Valid() && lastVal.sign != NaN && l == lastVal.Magnitude() && ln == (lastVal.sign == Neg)
    modifies result, tmpVal, lastVal
    ensures Positive(arg, a) && IsTwo(two)
    ensures ex == if m.digits == [] then DivideByZero else NoError
    ensures ex == NoError ==>
              result.Valid() && result.sign == Pos && result.rscale == rscale && m' == result.Magnitude()
                              && m'.Exactly(y, rscale)
    ensures ex == NoError ==> (stat == 0 <==> Repeats(l, ln, m'))
    ensures ex == NoError && stat != 0 ==> lastVal.Valid() && lastVal.sign == Pos && lastVal.Magnitude() == m'
  {
    stat := 0;
    ex, m' := SqrtStep(arg, a, result, m, tmpVal, two, rscale, y);
    if ex == NoError { stat := KeepLast(lastVal, l, ln, result, m'); }
  }

  /** The value after the first round. */
  function First(a: Mag, c: nat, s: int): nat
    requires a.digits != []
  {
    var w, g := a.weight + 2 * s, Guess(a).At(s);
    if w >= 0 && g == 0 then 0 else Next(w, c, g)
  }

  /** It is the value y that the result held before the call. */
  ghost predicate Stale(l: Mag, ln: bool, y: nat, s: int) { Repeats(l, ln, Norm(y, s)) }

  /** Finding a value equal does not depend on how it is written. */
  lemma RepeatsSame(l: Mag, ln: bool, m: Mag, k: Mag, y: nat, s: int)
    requires m.Exactly(y, s) && k.Exactly(y, s)
    ensures Repeats(l, ln, m) <==> Repeats(l, ln, k)
  {
    var e := Max(s, l.Scale());
    IsUp(m, y, s, e);
    IsUp(k, y, s, e);
    CompareSignedAt(l, ln, m, false, e);
    CompareSignedAt(l, ln, k, false, e);
    StrippedUnique(m, k, y, s);
  }

  /** The state between rounds: the value m, x at scale s, the last value and whether there was a round yet. */
  datatype Round = Round(m: Mag, x: nat, last: Mag, neg: bool, started: bool)

  /** Once started the last value is the present one; it is empty when everything was cut off.  l is what the result
      held. */
  ghost predicate Underway(a: Mag, c: nat, s: int, g: Round, l: Mag, ln: bool)
  {
    var w := a.weight + 2 * s;
    && a.digits != []
    && (g.m.digits != [] ==> Iterate(a, s, g.m, g.x))
    && (g.m.digits == [] ==> g.started && w <= -2)
    && (w >= 0 ==> g.x > 0 && Untrapped(c, g.x))
    && (!g.started ==> g.last == l && g.neg == ln && g.m == Guess(a) && g.x == Guess(a).At(s))
    && (g.started ==> g.last == g.m && !g.neg && g.m.Exactly(g.x, s) && !Stale(l, ln, First(a, c, s), s))
    && (g.started ==> (w >= 0 ==> NotBelow(c, g.x)) && (w == -1 ==> g.x <= 2) && (w <= -2 ==> g.m.digits == []))
  }

  lemma RoundStarts(a: Mag, c: nat, s: nat, l: Mag, ln: bool)
    requires a.digits != [] && a.digits[0] != 0
    ensures Underway(a, c, s, Round(Guess(a), Guess(a).At(s), l, ln, false), l, ln)
  {
    StartIterates(a, s);
    if a.weight + 2 * s >= 0 { GuessIs(HalfDigit(a.digits[0]), HalfWeight(a.weight), s); }
  }

  /** Whether the first round meets the value held before. */
  lemma FirstRound(a: Mag, c: nat, s: int, l: Mag, ln: bool, m: Mag, y: nat)
    requires a.digits != [] && m.Exactly(y, s) && y == First(a, c, s)
    ensures Repeats(l, ln, m) <==> Stale(l, ln, y, s)
  {
    NormIs(y, s);
    RepeatsSame(l, ln, m, Norm(y, s), y, s);
  }

  lemma RoundGoesOn(a: Mag, n: nat, r: int, c: nat, s: nat, g: Round, l: Mag, ln: bool, y: nat, m': Mag)
    requires IsTwice(c, a, n, r, s) && a.digits != [] && a.digits[0] != 0 && Underway(a, c, s, g, l, ln)
             && g.m.digits != []
    requires y == Next(a.weight + 2 * s, c, g.x) && m'.Exactly(y, s) && !Repeats(g.last, g.neg, m')
    ensures Underway(a, c, s, Round(m', y, m', false, true), l, ln)
    ensures m'.digits != [] ==> y != g.x || !g.started
  {
    NextBound(a, n, r, s, g.m, g.x, c, y);
    if a.weight + 2 * s >= 0 { StaysUntrapped(c, g.x); }
    StrippedSize(m', y, s);
    if g.started { RepeatsHeld(g.last, g.neg, g.x, m', y, s); } else { FirstRound(a, c, s, l, ln, m', y); }
  }

  lemma RoundStops(a: Mag, n: nat, r: int, c: nat, s: nat, g: Round, l: Mag, ln: bool, y: nat, m': Mag)
    requires IsTwice(c, a, n, r, s) && a.digits != [] && a.digits[0] != 0 && Underway(a, c, s, g, l, ln)
             && g.m.digits != []
    requires y == Next(a.weight + 2 * s, c, g.x) && m'.Exactly(y, s) && Repeats(g.last, g.neg, m')
    ensures if Stale(l, ln, First(a, c, s), s) then y == First(a, c, s)
            else a.weight + 2 * s >= -1 && Settled(a.weight + 2 * s, c, y)
  {
    NextBound(a, n, r, s, g.m, g.x, c, y);
    if a.weight + 2 * s >= 0 { StaysUntrapped(c, g.x); }
    if g.started { RepeatsHeld(g.last, g.neg, g.x, m', y, s); } else { FirstRound(a, c, s, l, ln, m', y); }
  }

  /** The variables of the loop hold the state between rounds. */
  ghost predicate Keeps(result: NumericVar, lastVal: NumericVar, rscale: int, g: Round)
    reads result, result.buf, lastVal, lastVal.buf
  {
    && result.Valid() && result.sign == Pos && g.m == result.Magnitude() && result.rscale == rscale
    && lastVal.Valid() && lastVal.sign != NaN && g.last == lastVal.Magnitude() && g.neg == (lastVal.sign == Neg)
  }

  /** One turn of the loop.  stat is zero when the value found is the last one. */
  method SqrtTurn(arg: NumericVar, ghost a: Mag, result: NumericVar, tmpVal: NumericVar, lastVal: NumericVar,
                  two: NumericVar, rscale: nat, ghost c: nat, ghost n: nat, ghost r: int, ghost l: Mag, ghost ln: bool,
                      ghost g: Round)
    returns (stat: int, ex: DecimalException, ghost h: Round)
    requires Positive(arg, a) && IsTwo(two) && arg !in {result, tmpVal, lastVal} && two !in {result, tmpVal, lastVal}
    requires result != tmpVal && result != lastVal && tmpVal != lastVal && Keeps(result, lastVal, rscale, g)
    requires IsTwice(c, a, n, r, rscale) && Underway(a, c, rscale, g, l, ln)
    modifies result, tmpVal, lastVal
    ensures Positive(arg, a) && IsTwo(two)
    ensures ex == if g.m.digits == [] then DivideByZero else NoError
    ensures ex == NoError ==> result.Holds(h.x, rscale) && result.rscale == rscale
    ensures ex == NoError && stat == 0 ==>
              var w, y := a.weight + 2 * rscale, First(a, c, rscale);
              if Stale(l, ln, y, rscale) then h.x == y else w >= -1 && Settled(w, c, h.x)
    ensures ex == NoError && stat != 0 ==>
              Keeps(result, lastVal, rscale, h) && Underway(a, c, rscale, h, l, ln) && h.started
    ensures ex == NoError && stat != 0 && g.started && h.m.digits != [] ==>
              Measure(a.weight + 2 * rscale, c, h.x) < Measure(a.weight + 2 * rscale, c, g.x)
  {
    ghost var w := a.weight + 2 * rscale;
    ghost var y := Next(w, c, g.x);
    if g.m.digits != [] { StepIs(a, n, r, rscale, g.m, g.x, c); }
    ghost var m';
    stat, ex, m' := SqrtRound(arg, a, result, g.m, tmpVal, lastVal, g.last, g.neg, two, rscale, y);
    h := Round(m', y, m', false, true);
    if ex == NoError && stat == 0 { RoundStops(a, n, r, c, rscale, g, l, ln, y, m'); }
    if ex == NoError && stat != 0 {
      RoundGoesOn(a, n, r, c, rscale, g, l, ln, y, m');
      if g.started && m'.digits != [] { MeasureFalls(w, c, g.x, y); }
    }
  }

  /** The loop of sqrt_var: it ends, at once if its first value is the one the result held before, and otherwise where
      it settles, or with an error when everything is cut off to nothing. */
  method SqrtLoop(arg: NumericVar, ghost a: Mag, result: NumericVar, lastVal: NumericVar, ghost l: Mag, ghost ln: bool,
                  rscale: nat, ghost c: nat, ghost n: nat, ghost r: int)
    returns (ghost x: nat, ex: DecimalException)
    requires Positive(arg, a) && result != arg && lastVal != arg && lastVal != result
    requires Positive(result, Guess(a)) && result.rscale == rscale && IsTwice(c, a, n, r, rscale)
    requires lastVal.Valid() && lastVal.sign != NaN && l == lastVal.Magnitude() && ln == (lastVal.sign == Neg)
    modifies result, lastVal
    ensures ex == NoError ==> result.Holds(x, rscale) && result.rscale == rscale
    ensures var w, y := a.weight + 2 * rscale, First(a, c, rscale);
            && ex == (if w <= -2 && !Stale(l, ln, y, rscale) then DivideByZero else NoError)
            && (ex == NoError ==> if Stale(l, ln, y, rscale) then x == y else Settled(w, c, x))
  {
    var tmpVal := new NumericVar();
    var two := new NumericVar.Constant(2);
    ghost var g := Round(Guess(a), Guess(a).At(rscale), l, ln, false);
    RoundStarts(a, c, rscale, l, ln);
    while true
      invariant fresh(tmpVal) && two != tmpVal && two !in {result, lastVal} && tmpVal !in {arg, result, lastVal}
      invariant Positive(arg, a) && IsTwo(two) && Keeps(result, lastVal, rscale, g)
      invariant Underway(a, c, rscale, g, l, ln)
      decreases if g.m.digits == [] then 0 else 1, if g.started then 0 else 1, Measure(a.weight + 2 * rscale, c, g.x)
    {
      var stat;
      stat, ex, g := SqrtTurn(arg, a, result, tmpVal, lastVal, two, rscale, c, n, r, l, ln, g);
      x := g.x;
      if ex != NoError || stat == 0 { break; }
    }
  }

  lemma TenToEight()
    ensures Pow10(8) == 100000000
  {
    assert Pow10(4) == 10000;
    Pow10Add(4, 4);
  }

  /** Stopping at once can be too soon: the first value for nine is 3.125, and a result that holds it keeps it. */
  lemma StaleMiss(a: Mag, l: Mag, c: nat, y: nat)
    requires a == Mag([9], 0) && l == Mag([3, 1, 2, 5], 0) && c == Twice(9, 0, 8) && y == 312500000
    ensures a.Is(9, 0) && First(a, c, 8) == y && Stale(l, false, y, 8) && !Settled(16, c, y)
  {
    assert a.Is(9, 0) by { GuessIs(9, 0, 0); }
    assert c == 180000000000000000 by {
      TenToEight();
      Pow10Add(8, 8);
    }
    FirstOfNine(a, c);
    NotSettledNine(c, y);
    MissValue(l);
    NormIs(y, 8);
    RepeatsHeld(l, false, y, Norm(y, 8), y, 8);
  }

  lemma FirstOfNine(a: Mag, c: nat)
    requires a == Mag([9], 0) && c == 180000000000000000
    ensures First(a, c, 8) == 312500000
  {
    NewtonOfNine(c, 400000000);
    TenToEight();
    GuessIs(4, 0, 8);
  }

  lemma NewtonOfNine(c: nat, x: nat)
    requires c == 180000000000000000 && x == 400000000
    ensures Newton(c, x) == 312500000
  {
    DivUnique(c + x, 800000000, 225000000, 400000000);
  }

  lemma NotSettledNine(c: nat, y: nat)
    requires c == 180000000000000000 && y == 312500000
    ensures !Settled(16, c, y)
  {
    NewtonFixed(c, y);
  }

  lemma MissValue(l: Mag)
    requires l == Mag([3, 1, 2, 5], 0)
    ensures l.Exactly(312500000, 8)
  {
    var d := l.digits;
    PrefixZeros(d, 4, 5);
    assert Prefix(d, 1) == 3 && Prefix(d, 2) == 31 && Prefix(d, 3) == 312 && Prefix(d, 4) == 3125;
    assert Pow10(2) == 100 && Pow10(4) == 10000 && Pow10(5) == 100000;
  }

  // ---------- the last division ----------

  /** The last division of sqrt_var brings the root to the scale asked for.  A root below
      10^-r keeps its first digit, at a finer scale. */
  ghost predicate Brought(x: nat, s: int, r: int, q: nat, t: int)
  {
    t >= r && q == Quotient(x, s, 1, 0, t) && (x >= Pow10(8) ==> t == r)
    && (x < Pow10(8) ==> r < t <= s && x < Pow10(s - t + 1))
  }

  lemma BroughtByOne(m: Mag, x: nat, s: int, rscale: int, t: int, q: nat)
    requires m.Is(x, s) && Mag([1], 0).Coef() > 0 && q == QuotientOf(m, Mag([1], 0), t)
             && t == QuotientScale(m, Mag([1], 0), rscale)
    requires x > 0 && s == rscale + 8 && m.weight + s >= 0 && Pow10(m.weight + s) <= x < Pow10(m.weight + s + 1)
    ensures Brought(x, s, rscale, q, t)
  {
    if x >= Pow10(8) { ExponentBelow(8, x, m.weight + s + 1); } else { ExponentBelow(m.weight + s, x, 8); }
    QuotientIs(m, x, s, Mag([1], 0), 1, 0, t);
  }

  /** What is left of x / 10^s after it: q / 10^t. */
  ghost predicate Final(x: nat, s: int, r: int, q: nat, t: int)
  {
    if x > 0 then Brought(x, s, r, q, t) else q == 0 && t >= r
  }

  method FinalScale(result: NumericVar, rscale: nat, ghost x: nat, ghost s: int) returns (ghost q: nat, ghost t: int)
    requires result.Holds(x, s) && s == rscale + 8
    modifies result
    ensures result.Holds(q, t) && result.rscale == rscale && Final(x, s, rscale, q, t)
  {
    ghost var m, b := result.Magnitude(), Mag([1], 0);
    var one := new NumericVar.Constant(1);
    t := QuotientScale(m, b, rscale);
    NonZero(b);
    q := QuotientOf(m, b, t);
    FinalIs(m, x, s, rscale, q, t);
    DivideHeld(result, one, b, rscale, x, s, q, t);
  }

  lemma FinalIs(m: Mag, x: nat, s: int, rscale: nat, q: nat, t: int)
    requires m.Exactly(x, s) && s == rscale + 8 && Mag([1], 0).Coef() > 0
    requires t == QuotientScale(m, Mag([1], 0), rscale) && q == QuotientOf(m, Mag([1], 0), t)
    ensures Final(x, s, rscale, q, t)
  {
    StrippedSize(m, x, s);
    if x == 0 { ZeroQuotient(m, Mag([1], 0), t); } else { BroughtByOne(m, x, s, rscale, t, q); }
  }

  /** sqrt_var's result q / 10^t for a positive argument n / 10^r of the given weight: from a value x where the loop
      settles. */
  ghost predicate IsRoot(n: nat, r: int, weight: int, rscale: int, x: nat, q: nat, t: int)
  {
    Settled(weight + 2 * (rscale + 8), Twice(n, r, rscale + 8), x) && Final(x, rscale + 8, rscale, q, t)
  }

  /** The comparison of the argument with zero. */
  method CmpZero(arg: NumericVar, ghost a: Mag) returns (stat: int)
    requires arg.Valid() && a == arg.Magnitude() && arg.sign != NaN && (a.digits != [] ==> a.digits[0] != 0)
    ensures stat == if a.digits == [] then 0 else if arg.sign == Neg then -1 else 1
  {
    var zero := new NumericVar();
    stat := CmpVar(arg, zero);
    LeadingNotZero(a);
    ghost var s := Max(a.Scale(), zero.Magnitude().Scale());
    ZeroAt(a, s);
    ZeroAt(zero.Magnitude(), s);
  }

  /** set_var_from_var(&const_zero, result), at the working scale. */
  method ZeroRoot(result: NumericVar, rscale: int)
    modifies result
    ensures result.Holds(0, rscale) && result.rscale == rscale
  {
    var zero := new NumericVar();
    ZeroHolds(zero, rscale);
    CopyHeld(zero, result, 0, rscale);
    result.SetRscale(rscale, 0, rscale);
  }

  /** The local copy of the argument. */
  method CopyArg(arg: NumericVar, ghost a: Mag) returns (tmpArg: NumericVar)
    requires Positive(arg, a)
    ensures fresh(tmpArg) && Positive(tmpArg, a)
  {
    tmpArg := new NumericVar();
    tmpArg.SetVarFromVar(arg);
  }

  method CopyLast(result: NumericVar, ghost l: Mag) returns (lastVal: NumericVar)
    requires result.Valid() && l == result.Magnitude()
    ensures fresh(lastVal) && lastVal.Valid() && lastVal.Magnitude() == l && lastVal.sign == result.sign
  {
    lastVal := new NumericVar();
    lastVal.SetVarFromVar(result);
  }

  method PositiveRoot(arg: NumericVar, ghost a: Mag, result: NumericVar, ghost l: Mag, ghost ln: bool, resRscale: nat,
                      rscale: nat, ghost n: nat, ghost r: int, ghost c: nat)
    returns (ghost x: nat, ghost q: nat, ghost t: int, ex: DecimalException)
    requires a.Is(n, r) && Positive(arg, a) && result.Valid() && result.sign != NaN && l == result.Magnitude()
             && ln == (result.sign == Neg)
    requires resRscale == rscale + 8 && c == Twice(n, r, resRscale)
    modifies result
    ensures ex == NoError ==> result.Holds(q, t) && result.rscale == rscale && Final(x, resRscale, rscale, q, t)
    ensures var w, y := a.weight + 2 * resRscale, First(a, c, resRscale);
            && ex == (if w <= -2 && !Stale(l, ln, y, resRscale) then DivideByZero else NoError)
            && (ex == NoError ==> if Stale(l, ln, y, resRscale) then x == y else Settled(w, c, x))
    ensures ex != NoError ==> result.sign == NaN
  {
    q, t := 0, 0;
    var tmpArg := CopyArg(arg, a);
    var lastVal := CopyLast(result, l);
    FirstGuess(tmpArg, a, result, resRscale);
    x, ex := SqrtLoop(tmpArg, a, result, lastVal, l, ln, resRscale, c, n, r);
    if ex == NoError {
      q, t := FinalScale(result, rscale, x, resRscale);
    } else {
      result.FreeVar();
    }
  }

  /** sqrt_var, for any argument without leading zeros and any result, its argument included. */
  method SqrtVar(arg: NumericVar, ghost a: Mag, result: NumericVar, ghost l: Mag, ghost ln: bool, globalRscale0: nat,
                 ghost n: nat, ghost r: int)
    returns (globalRscale: int, ex: DecimalException, ghost x: nat, ghost q: nat, ghost t: int)
    requires arg.Valid() && a == arg.Magnitude() && a.Is(n, r) && arg.sign != NaN
             && (a.digits != [] ==> a.digits[0] != 0)
    requires result.Valid() && result.sign != NaN && l == result.Magnitude() && ln == (result.sign == Neg)
    modifies result
    ensures a.digits == [] ==> ex == NoError && globalRscale == globalRscale0 + 8
                               && result.Holds(0, globalRscale) && result.rscale == globalRscale
    ensures a.digits != [] && old(arg.sign) == Neg ==>
              ex == UndefinedResult && globalRscale == globalRscale0 + 8 && result.sign == NaN
    ensures a.digits != [] && old(arg.sign) == Pos && ex == NoError ==>
              globalRscale == globalRscale0 && result.rscale == globalRscale0 && result.Holds(q, t)
              && Final(x, globalRscale0 + 8, globalRscale0, q, t)
    ensures a.digits != [] && old(arg.sign) == Pos && ex != NoError ==>
              globalRscale == globalRscale0 + 8 && result.sign == NaN
    ensures a.digits != [] && old(arg.sign) == Pos ==>
              var s, c := globalRscale0 + 8, Twice(n, r, globalRscale0 + 8);
              var w, y := a.weight + 2 * s, First(a, c, s);
              && ex == (if w <= -2 && !Stale(l, ln, y, s) then DivideByZero else NoError)
              && (ex == NoError ==> if Stale(l, ln, y, s) then x == y else Settled(w, c, x))
  {
    x, q, t := 0, 0, 0;
    globalRscale := globalRscale0 + 8;
    var resRscale := globalRscale0 + 8;
    var stat := CmpZero(arg, a);
    if stat == 0 {
      ZeroRoot(result, resRscale);
      ex := NoError;
    } else if stat < 0 {
      result.FreeVar();
      ex := UndefinedResult;
    } else {
      x, q, t, ex := PositiveRoot(arg, a, result, l, ln, resRscale, globalRscale0, n, r, Twice(n, r, resRscale));
      if ex == NoError { globalRscale := globalRscale0; }
    }
  }
}
