/** Long division with a trial quotient digit. */
module Division {
  import opened Decimal
  import opened Magnitudes
  import opened Variables
  import opened AddSub

  // ---------- the arithmetic of one quotient digit ----------

  /** The trial digit 10*have/first + 1 is never below the true digit q. */
  lemma TrialNotLow(q: nat, unit: nat, r: nat, have: nat, first: nat, u: nat)
    requires q * unit <= r < (have + 1) * u && first * u <= 10 * unit && first >= 10 && u > 0
    ensures q <= have * 10 / first + 1
  {
    if q >= have * 10 / first + 2 {
      var g := have * 10 / first;
      MulMono(g + 2, q, first);
      TrialAlgebra(q, unit, r, have, first, u);
      assert false;
    }
  }

  lemma TrialAlgebra(q: nat, unit: nat, r: nat, have: nat, first: nat, u: nat)
    requires q * unit <= r < (have + 1) * u && first * u <= 10 * unit && u > 0
    ensures q * first < 10 * (have + 1)
  {
    MulMono(first * u, 10 * unit, q);
    assert (first * u) * q == (q * first) * u;
    assert (10 * unit) * q == 10 * (q * unit);
    assert 10 * ((have + 1) * u) == (10 * (have + 1)) * u;
    if q * first >= 10 * (have + 1) {
      MulMono(10 * (have + 1), q * first, u);
      assert false;
    }
  }

  lemma QuotientDigit(r: nat, unit: nat, g: nat)
    requires unit > 0
    ensures g * unit <= r <==> g <= r / unit
    ensures r < 10 * unit ==> r / unit <= 9
  {
    FloorAtLeast(r, unit, g);
    FloorAtLeast(r, unit, 10);
  }

  // ---------- the table of divisor multiples ----------

  /** v's whole buffer holds the digits of g times the divisor e, with one more place than e. */
  ghost predicate Multiple(v: NumericVar, g: nat, e: seq<digit>)
    reads v, v.buf
  {
    v.buf != null && v.start == 0 && v.ndigits == v.buf.Length == |e| + 1
    && Prefix(v.buf[..], |e| + 1) == g * Prefix(e, |e|)
  }

  /** Entry 1 is filled in; each other entry is either empty or the right multiple of e. */
  ghost predicate Table(divisor: seq<NumericVar>, e: seq<digit>)
    reads divisor, set v | v in divisor :: v.buf
  {
    |divisor| == 10
    && (forall g, h :: 0 <= g < h < 10 ==> divisor[g] != divisor[h])
    && divisor[1].buf != null
    && (forall g :: 1 <= g < 10 && divisor[g].buf != null ==> Multiple(divisor[g], g, e))
  }

  lemma DigitProduct(a: nat, g: nat)
    requires a < 10 && g < 10
    ensures 0 <= a * g <= 81
  {
    MulMono(a, 9, g);
  }

  lemma MultipleSplit(g: int, p: int, q: int, a: int)
    requires p == 10 * q + a
    ensures g * p == 10 * (g * q) + a * g
  {
    DistributeLeft(g, 10 * q, a);
    MulAssoc(g, 10, q);
  }

  lemma MultipleNext(total: int, g: nat, p: nat, c: int, d: seq<digit>, q: nat, a: digit, c': int, e: seq<digit>)
    requires Column(total, g * p, c, d) && e != [] && e[1..] == d
    requires p == 10 * q + a as int && c + a as int * g == 10 * c' + e[0] as int
    ensures Column(total, g * q, c', e)
  {
    MultipleSplit(g, p, q, a);
    ColumnNext(total, g * p, c, d, g * q, a as int * g, c', e);
  }

  /** The multiplication loop that fills a missing entry. */
  method FillMultiple(one: NumericVar, g: nat, ghost e: seq<digit>) returns (b: array<digit>)
    requires Multiple(one, 1, e) && 1 < g < 10
    ensures fresh(b) && b.Length == |e| + 1
    ensures Prefix(b[..], |e| + 1) == g * Prefix(e, |e|)
  {
    var n := one.ndigits;
    ghost var d, total := one.buf[..], g * Prefix(e, |e|);
    b := new digit[n];
    var i := n;
    var sum: int := 0;
    while i > 0
      invariant 0 <= i <= n && 0 <= sum < 10
      invariant Column(total, g * Prefix(d, i), sum, b[i..])
      modifies b
    {
      ghost var c, done := sum, b[i..];
      i := i - 1;
      var x: digit := one.buf[i];
      DigitProduct(x, g);
      sum := sum + x as int * g;
      b[i] := sum % 10;
      sum := sum / 10;
      assert b[i..][1..] == done && x == d[i];
      MultipleNext(total, g, Prefix(d, i + 1), c, done, Prefix(d, i), x, sum, b[i..]);
    }
    assert b[0..] == b[..];
    MultipleFits(e, g);
    ColumnEnd(total, sum, b[..]);
  }

  lemma MultipleFits(e: seq<digit>, g: nat)
    requires g < 10
    ensures g * Prefix(e, |e|) < Pow10(|e| + 1)
  {
    PrefixBound(e, |e|);
    MulMono(g, 10, Prefix(e, |e|));
  }

  /** An empty entry becomes a copy of entry one, with a buffer of its own. */
  method FillEntry(entry: NumericVar, one: NumericVar, g: nat, ghost e: seq<digit>)
    requires Multiple(one, 1, e) && 1 < g < 10 && entry != one
    modifies entry
    ensures Multiple(entry, g, e) && fresh(entry.buf)
  {
    var b := FillMultiple(one, g, e);
    entry.ndigits, entry.weight, entry.rscale, entry.dscale, entry.sign :=
      one.ndigits, one.weight, one.rscale, one.dscale, one.sign;
    entry.buf, entry.start := b, 0;
  }

  /** Make sure entry g exists and move it to the given weight. */
  method SelectMultiple(divisor: seq<NumericVar>, ghost e: seq<digit>, g: nat, weight: int, rscale: int)
    requires Table(divisor, e) && 1 <= g < 10
    modifies divisor[g]
    ensures Table(divisor, e)
    ensures divisor[g].buf != null && (divisor[g].buf == old(divisor[g].buf) || fresh(divisor[g].buf))
    ensures divisor[g].weight == weight && divisor[g].rscale == rscale
  {
    var entry := divisor[g];
    if entry.buf == null {
      FillEntry(entry, divisor[1], g, e);
    }
    entry.weight := weight;
    entry.rscale := rscale;
    assert Multiple(entry, g, e);
  }

  /** The divisor's worth, at scale s, when its leading zero has the given weight. */
  function Unit(e: seq<digit>, weight: int, s: int): nat
    requires |e| <= s + weight
  {
    Prefix(e, |e|) * Pow10(s + weight - |e|)
  }

  lemma MultipleAt(m: Mag, g: nat, e: seq<digit>, s: int)
    requires |m.digits| == |e| + 1 <= s + m.weight + 1 && Prefix(m.digits, |e| + 1) == g * Prefix(e, |e|)
    ensures m.Fits(s) && m.At(s) == g * Unit(e, m.weight, s)
  {
    PrefixZeros(m.digits, |e| + 1, s + m.weight - |e|);
    MulAssoc(g, Prefix(e, |e|), Pow10(s + m.weight - |e|));
  }

  /** Compare the dividend with a multiple of the divisor, at a scale that fits both. */
  method CompareMultiple(dividend: NumericVar, ghost m: Mag, v: NumericVar, ghost g: nat, ghost e: seq<digit>,
                         ghost s: int)
    returns (stat: int)
    requires dividend.Valid() && m == dividend.Magnitude() && m.Fits(s)
    requires Multiple(v, g, e) && |e| <= s + v.weight
    ensures stat == Sign(m.At(s) - g * Unit(e, v.weight, s))
  {
    stat := CmpAbs(dividend, v);
    assert v.buf[0..0 + v.ndigits] == v.buf[..];
    MultipleAt(v.Magnitude(), g, e, s);
    CompareAt(m, v.Magnitude(), s);
  }

  /** Where the guess g stands against the true digit q shows in the sign of r - g * unit. */
  lemma GuessSign(r: nat, unit: nat, q: nat, g: nat)
    requires q * unit <= r < (q + 1) * unit
    ensures g <= q ==> Sign(r - g * unit) >= 0
    ensures g > q ==> Sign(r - g * unit) == -1
  {
    if g <= q { MulMono(g, q, unit); } else { MulMono(q + 1, g, unit); }
  }

  /** Step the trial digit down until that multiple of the divisor fits into the dividend. */
  method FindDigit(dividend: NumericVar, ghost m: Mag, divisor: seq<NumericVar>, ghost e: seq<digit>,
                   trial: nat, weight: int, rscale: int, ghost s: int, ghost q: nat)
    returns (guess: nat, stat: int)
    requires dividend.Valid() && m == dividend.Magnitude() && m.Fits(s)
    requires Table(divisor, e) && dividend !in divisor && |e| <= s + weight
    requires q * Unit(e, weight, s) <= m.At(s) < (q + 1) * Unit(e, weight, s)
    requires 1 <= trial <= 9 && q <= trial
    modifies divisor
    ensures Table(divisor, e)
    ensures forall g :: 0 <= g < 10 ==> divisor[g].buf == old(divisor[g].buf) || fresh(divisor[g].buf)
    ensures guess == q
    ensures stat == if q == 0 then -1 else Sign(m.At(s) - q * Unit(e, weight, s))
    ensures q > 0 ==> divisor[q].buf != null && divisor[q].weight == weight && divisor[q].rscale == rscale
  {
    guess, stat := trial, 0;
    while guess > 0
      invariant q <= guess <= trial
      invariant guess < trial ==> stat == -1
      invariant Table(divisor, e) && dividend.Valid() && dividend.Magnitude() == m
      invariant forall g :: 0 <= g < 10 ==> divisor[g].buf == old(divisor[g].buf) || fresh(divisor[g].buf)
    {
      SelectMultiple(divisor, e, guess, weight, rscale);
      assert Multiple(divisor[guess], guess, e);
      stat := CompareMultiple(dividend, m, divisor[guess], guess, e, s);
      GuessSign(m.At(s), Unit(e, weight, s), q, guess);
      if stat >= 0 { return; }
      guess := guess - 1;
    }
  }

  // ---------- one step of the long division ----------

  /** The two leading divisor digits never overstate the divisor. */
  lemma FirstDivBound(e: seq<digit>, weight: int, s: int)
    requires 1 <= |e| <= s + weight
    ensures Prefix(e, 2) * Pow10(s + weight - 1) <= 10 * Unit(e, weight, s)
  {
    var n, k := |e|, s + weight - |e|;
    PrefixDiv(e, 2, n - 1);
    Pow10Add(n - 1, k);
    assert Prefix(e, n + 1) == 10 * Prefix(e, n);
    MulMono(Prefix(e, 2) * Pow10(n - 1), 10 * Prefix(e, n), Pow10(k));
    MulAssoc(Prefix(e, 2), Pow10(n - 1), Pow10(k));
    MulAssoc(10, Prefix(e, n), Pow10(k));
  }

  lemma UnitBound(e: seq<digit>, weight: int, s: int)
    requires 1 <= |e| <= s + weight && e[0] != 0
    ensures 0 < Unit(e, weight, s) < Pow10(s + weight)
  {
    var n, k := |e|, s + weight - |e|;
    LeadBound(e, n);
    PrefixBound(e, n);
    Pow10Add(n, k);
    StrictProduct(Prefix(e, n), Pow10(n), Pow10(k));
  }

  lemma StrictProduct(a: nat, b: nat, k: nat)
    requires 0 < a < b && k > 0
    ensures 0 < a * k < b * k
  {
    MulMono(1, a, k);
    MulMono(a + 1, b, k);
    Distribute(a, 1, k);
  }

  /** Below one unit of 10^-t nothing shows at scale t. */
  lemma SmallAt(m: Mag, t: int, s: int)
    requires t <= s && m.At(s) < Pow10(s - t)
    ensures m.At(t) == 0
  {
    PrefixDiv(m.digits, m.weight + t + 1, s - t);
    NoWhole(m.At(s), m.At(t), Pow10(s - t));
  }

  /** The trial digit computed from the leading parts is not below the true digit q. */
  lemma TrialDigit(m: Mag, e: seq<digit>, weight: int, s: int, q: nat)
    requires 1 <= |e| <= s + weight && e[0] != 0
    requires q * Unit(e, weight, s) <= m.At(s)
    ensures Prefix(e, 2) >= 10 && q <= m.At(1 - weight) * 10 / Prefix(e, 2) + 1
  {
    var k := s + weight - 1;
    FirstDivBound(e, weight, s);
    LeadBound(e, 2);
    assert Pow10(1) == 10;
    PrefixDiv(m.digits, m.weight + 1 - weight + 1, k);
    assert (m.At(1 - weight) + 1) * Pow10(k) == m.At(1 - weight) * Pow10(k) + Pow10(k) by {
      Distribute(m.At(1 - weight), 1, Pow10(k));
    }
    TrialNotLow(q, Unit(e, weight, s), m.At(s), m.At(1 - weight), Prefix(e, 2), Pow10(k));
  }

  /** sub_abs on the dividend: the remainder drops by q times the divisor. */
  method Reduce(dividend: NumericVar, ghost m: Mag, v: NumericVar, ghost q: nat, ghost e: seq<digit>, ghost s: int)
    requires dividend.Valid() && m == dividend.Magnitude() && m.Fits(dividend.rscale) && dividend != v
    requires Multiple(v, q, e) && v.rscale == |e| + 1 - v.weight && dividend.rscale <= s && v.rscale <= s
             && |e| <= s + v.weight
    requires q * Unit(e, v.weight, s) <= m.At(s)
    modifies dividend
    ensures dividend.Valid() && dividend.buf != null && fresh(dividend.buf)
    ensures dividend.Magnitude().Is(m.At(s) - q * Unit(e, v.weight, s), s)
    ensures dividend.rscale <= s && dividend.Magnitude().Fits(dividend.rscale)
  {
    ghost var d, r := v.Magnitude(), Max(dividend.rscale, v.rscale);
    assert v.buf[0..0 + v.ndigits] == v.buf[..];
    MultipleAt(d, q, e, s);
    MultipleAt(d, q, e, v.rscale);
    assert m.Fits(r) && d.Fits(r) && m.Fits(s);
    IsUp(m, m.At(r), r, s);
    IsUp(d, d.At(r), r, s);
    ScaledOrder(d.At(r), m.At(r), Pow10(s - r));
    SubAbs(dividend, v, dividend);
    IsUp(dividend.Magnitude(), m.At(r) - d.At(r), r, s);
  }

  lemma ScaledOrder(a: nat, b: nat, k: nat)
    requires k > 0 && a * k <= b * k
    ensures a <= b && (b - a) * k == b * k - a * k
  {
    if b + 1 <= a { MulMono(b + 1, a, k); assert false; }
  }

  /** After step steps: total is quot divisors at the last place plus the dividend that is left. */
  ghost predicate Dividing(total: nat, quot: nat, m: Mag, e: seq<digit>, step: int, s: int)
  {
    |e| <= s + 1 - step && m.Fits(s)
    && total == quot * (10 * Unit(e, 1 - step, s)) + m.At(s) && m.At(s) < 10 * Unit(e, 1 - step, s)
  }

  /** have is the whole part of the dividend above the next place, next the index of the digit there. */
  ghost predicate HaveRead(m: Mag, step: int, have: int, next: int)
  {
    have == m.At(step - 1) && next == m.weight + step
  }

  /** The leading part read is below ten before the next digit is appended, and below a hundred after that. */
  lemma HaveBound(total: nat, quot: nat, m: Mag, e: seq<digit>, step: int, s: int)
    requires Dividing(total, quot, m, e, step, s) && 1 <= |e| && e[0] != 0
    ensures m.At(step - 1) <= 9 && m.At(step) <= 99
  {
    var k := s - step;
    UnitBound(e, 1 - step, s);
    assert Pow10(k + 1) == 10 * Pow10(k);
    PrefixDiv(m.digits, m.weight + step + 1, k);
    AtStep(m, step);
    BelowHundred(m.At(step), Pow10(k), m.At(s));
  }

  lemma BelowHundred(h: nat, p: nat, x: nat)
    requires h * p <= x < 100 * p
    ensures h <= 99
  {
    if h >= 100 { MulMono(100, h, p); assert false; }
  }

  lemma UnitStep(e: seq<digit>, weight: int, s: int)
    requires |e| < s + weight
    ensures Unit(e, weight, s) == 10 * Unit(e, weight - 1, s)
  {
    TenIn(Prefix(e, |e|), Pow10(s + weight - 1 - |e|));
  }

  lemma DigitOf(total: nat, quot: nat, x: nat, u: nat) returns (q: nat)
    requires u > 0 && total == quot * (10 * u) + x && x < 10 * u
    ensures q <= 9 && q * u <= x < (q + 1) * u && x - q * u < u
    ensures total == (10 * quot + q) * u + (x - q * u)
  {
    q := x / u;
    QuotientDigit(x, u, q);
    Distribute(q, 1, u);
    Distribute(10 * quot, q, u);
    assert quot * (10 * u) == 10 * quot * u;
  }

  /** The next digit: q units fit into what is left and less than one unit remains. */
  lemma NextDigit(total: nat, quot: nat, m: Mag, e: seq<digit>, step: int, s: int) returns (q: nat)
    requires Dividing(total, quot, m, e, step, s) && 1 <= |e| && e[0] != 0
    ensures q <= 9 && q * Unit(e, 1 - step, s) <= m.At(s) < (q + 1) * Unit(e, 1 - step, s)
    ensures NextState(total, 10 * quot + q, m.At(s) - q * Unit(e, 1 - step, s), e, step, s)
  {
    UnitBound(e, 1 - step, s);
    q := DigitOf(total, quot, m.At(s), Unit(e, 1 - step, s));
  }

  /** The state between finding a digit and moving on to the next place. */
  ghost predicate NextState(total: nat, quot: nat, rest: int, e: seq<digit>, step: int, s: int)
  {
    |e| <= s + 1 - step && total == quot * Unit(e, 1 - step, s) + rest && 0 <= rest < Unit(e, 1 - step, s)
  }

  lemma NextDividing(total: nat, quot: nat, m: Mag, e: seq<digit>, step: int, s: int)
    requires m.Fits(s) && NextState(total, quot, m.At(s), e, step, s) && |e| <= s - step
    ensures Dividing(total, quot, m, e, step + 1, s)
  {
    UnitStep(e, 1 - step, s);
  }

  /** The leading part of the dividend grows by the next digit. */
  method ReadNext(dividend: NumericVar, ghost m: Mag, ghost step: int, have: int, next: int,
                  ghost total: nat, ghost quot: nat, ghost e: seq<digit>, ghost s: int)
    returns (have': int)
    requires dividend.Valid() && m == dividend.Magnitude() && HaveRead(m, step, have, next)
    requires Dividing(total, quot, m, e, step, s) && 1 <= |e| && e[0] != 0
    ensures have' == m.At(step) && 0 <= have <= 9 && 0 <= have' <= 99
  {
    HaveBound(total, quot, m, e, step, s);
    AtStep(m, step);
    have' := have * 10;
    if 0 <= next < dividend.ndigits {
      have' := have' + dividend.buf[dividend.start + next] as int;
    }
  }

  /** After a subtraction less than one divisor is left, so its leading part is one digit. */
  method Reread(dividend: NumericVar, ghost m: Mag, step: int, ghost e: seq<digit>, ghost s: int)
    returns (have: int, next: int)
    requires dividend.Valid() && m == dividend.Magnitude()
    requires 1 <= |e| <= s - step && e[0] != 0 && m.At(s) < Unit(e, 1 - step, s)
    ensures HaveRead(m, step + 1, have, next)
  {
    UnitBound(e, 1 - step, s);
    SmallAt(m, step - 1, s);
    AtStep(m, step);
    next := dividend.weight + step;
    have := 0;
    if 0 <= next < dividend.ndigits {
      have := dividend.buf[dividend.start + next] as int;
    }
    next := next + 1;
  }

  /** The loop invariant of the division: dividend holds what is left after step digits. */
  ghost predicate Ready(dividend: NumericVar, divisor: seq<NumericVar>, e: seq<digit>, step: nat,
                        have: int, next: int, total: nat, quot: nat, s: int)
    reads dividend, dividend.buf, divisor, set v | v in divisor :: v.buf
  {
    dividend.Valid() && dividend !in divisor && dividend.rscale <= s && dividend.Magnitude().Fits(dividend.rscale)
    && Table(divisor, e) && 1 <= |e| && e[0] != 0
    && Dividing(total, quot, dividend.Magnitude(), e, step, s)
    && HaveRead(dividend.Magnitude(), step, have, next)
  }

  /** The trial digit, and the search down from it. */
  method ChooseDigit(dividend: NumericVar, ghost m: Mag, divisor: seq<NumericVar>, ghost e: seq<digit>, step: nat,
                     have: int, firstDiv: nat, rscale: int, ghost s: int, ghost q: nat)
    returns (guess: nat, stat: int)
    requires dividend.Valid() && m == dividend.Magnitude() && m.Fits(s)
    requires Table(divisor, e) && dividend !in divisor && 1 <= |e| <= s + 1 - step && e[0] != 0
    requires have == m.At(step) && firstDiv == Prefix(e, 2)
    requires q <= 9 && q * Unit(e, 1 - step, s) <= m.At(s) < (q + 1) * Unit(e, 1 - step, s)
    modifies divisor
    ensures Table(divisor, e) && guess == q
    ensures forall g :: 0 <= g < 10 ==> divisor[g].buf == old(divisor[g].buf) || fresh(divisor[g].buf)
    ensures stat == if q == 0 then -1 else Sign(m.At(s) - q * Unit(e, 1 - step, s))
    ensures q > 0 ==> divisor[q].buf != null && divisor[q].weight == 1 - step && divisor[q].rscale == rscale
  {
    TrialDigit(m, e, 1 - step, s, q);
    var trial := have * 10 / firstDiv + 1;
    if trial > 9 { trial := 9; }
    guess, stat := FindDigit(dividend, m, divisor, e, trial, 1 - step, rscale, s, q);
  }

  /** The dividend reduced by the digit found, when something is left. */
  method TakeDigit(dividend: NumericVar, ghost m: Mag, divisor: seq<NumericVar>, ghost e: seq<digit>, step: nat,
                   guess: nat, ghost s: int, ghost total: nat, ghost quot: nat)
    returns (firstHave: int, firstNext: int)
    requires dividend.Valid() && m == dividend.Magnitude() && m.Fits(dividend.rscale) && dividend.rscale <= s
    requires Table(divisor, e) && dividend !in divisor && 1 <= |e| <= s - step && e[0] != 0
    requires 0 < guess <= 9 && divisor[guess].buf != null && divisor[guess].weight == 1 - step
             && divisor[guess].rscale == |e| + step
    requires NextState(total, quot, m.At(s) - guess * Unit(e, 1 - step, s), e, step, s)
    modifies dividend
    ensures fresh(dividend.buf) && Ready(dividend, divisor, e, step + 1, firstHave, firstNext, total, quot, s)
  {
    assert Multiple(divisor[guess], guess, e);
    Reduce(dividend, m, divisor[guess], guess, e, s);
    NextDividing(total, quot, dividend.Magnitude(), e, step, s);
    firstHave, firstNext := Reread(dividend, dividend.Magnitude(), step, e, s);
  }

  /** The next place: the dividend is reduced by the digit found unless that is zero. */
  method NextPlace(dividend: NumericVar, ghost m: Mag, divisor: seq<NumericVar>, ghost e: seq<digit>, step: nat,
                   guess: nat, have: int, next: int, ghost s: int, ghost total: nat, ghost quot: nat)
    returns (firstHave: int, firstNext: int)
    requires dividend.Valid() && m == dividend.Magnitude() && m.Fits(dividend.rscale) && dividend.rscale <= s
    requires Table(divisor, e) && dividend !in divisor && 1 <= |e| <= s - step && e[0] != 0
    requires guess > 0 ==> guess <= 9 && divisor[guess].buf != null
                           && divisor[guess].weight == 1 - step && divisor[guess].rscale == |e| + step
    requires NextState(total, quot, m.At(s) - guess * Unit(e, 1 - step, s), e, step, s) && m.Fits(s)
             && HaveRead(m, step + 1, have, next)
    modifies dividend
    ensures dividend.buf == old(dividend.buf) || fresh(dividend.buf)
    ensures Ready(dividend, divisor, e, step + 1, firstHave, firstNext, total, quot, s)
  {
    if guess == 0 {
      NextDividing(total, quot, m, e, step, s);
      return have, next;
    }
    firstHave, firstNext := TakeDigit(dividend, m, divisor, e, step, guess, s, total, quot);
  }

  /** One round of the division loop: the next quotient digit, and the dividend reduced by it
      unless the comparison found an exact match. */
  method DivideStep(dividend: NumericVar, divisor: seq<NumericVar>, ghost e: seq<digit>, step: nat,
                    firstHave0: int, firstNext0: int, firstDiv: nat, rscale: int,
                    ghost s: int, ghost total: nat, ghost quot: nat)
    returns (guess: nat, stat: int, firstHave: int, firstNext: int)
    requires Ready(dividend, divisor, e, step, firstHave0, firstNext0, total, quot, s)
    requires |e| + step <= s && rscale == |e| + step && firstDiv == Prefix(e, 2)
    modifies dividend, divisor
    ensures guess <= 9
    ensures forall g :: 0 <= g < 10 ==> divisor[g].buf == old(divisor[g].buf) || fresh(divisor[g].buf)
    ensures dividend.buf == old(dividend.buf) || fresh(dividend.buf)
    ensures stat == 0 ==> NextState(total, 10 * quot + guess, 0, e, step, s)
    ensures stat != 0 ==> Ready(dividend, divisor, e, step + 1, firstHave, firstNext, total, 10 * quot + guess, s)
    ensures stat == 0 ==> 0 <= firstHave <= 99
  {
    ghost var m := dividend.Magnitude();
    ghost var q := NextDigit(total, quot, m, e, step, s);
    firstHave := ReadNext(dividend, m, step, firstHave0, firstNext0, total, quot, e, s);
    firstNext := firstNext0 + 1;
    guess, stat := ChooseDigit(dividend, m, divisor, e, step, firstHave, firstDiv, rscale, s, q);
    if stat == 0 { return; }
    firstHave, firstNext := NextPlace(dividend, m, divisor, e, step, guess, firstHave, firstNext, s, total,
                                      10 * quot + q);
  }

  // ---------- the whole division ----------

  /** A digit is appended to the i digits already there. */
  method PutQuotientDigit(res: array<digit>, i: nat, x: digit, ghost quot: nat)
    requires 0 < i < res.Length && quot == 10 * Prefix(res[..], i) + x as int
    modifies res
    ensures Prefix(res[..], i + 1) == quot && res[0] == old(res[0])
  {
    ghost var d := res[..];
    res[i] := x;
    PrefixShift(res[..], d, 0, i);
  }

  lemma DividingStart(d: seq<digit>, e: seq<digit>, s: int)
    requires 1 <= |e| <= s && e[0] != 0 && |d| <= s
    ensures Dividing(Mag(d, 0).At(s), 0, Mag(d, 0), e, 0, s) && HaveRead(Mag(d, 0), 0, 0, 0)
  {
    PrefixBound(d, s + 1);
    LeadBound(e, |e|);
    Pow10Add(|e| - 1, s + 1 - |e|);
    MulMono(Pow10(|e| - 1), Prefix(e, |e|), Pow10(s + 1 - |e|));
  }

  /** The state in which the loop stops: the digits written so far, and what is left over. */
  ghost predicate Divided(total: nat, d: seq<digit>, ri: nat, rest: nat, e: seq<digit>, n: nat, s: int)
  {
    1 <= ri <= n + 1 && |d| == n + 2 && d[0] == 0
    && NextState(total, Prefix(d, ri + 1), rest, e, ri - 1, s) && (ri <= n ==> rest == 0)
  }

  /** One pass through the loop body of div_var, with the digit stored at res[ri + 1]. */
  method DivideRound(dividend: NumericVar, divisor: seq<NumericVar>, ghost e: seq<digit>, res: array<digit>, ri: nat,
                     firstHave0: int, firstNext0: int, firstDiv: nat, rscale: int, ghost s: int, ghost total: nat)
    returns (ri': nat, stat: int, firstHave: int, firstNext: int)
    requires ri + 1 < res.Length
    requires Ready(dividend, divisor, e, ri, firstHave0, firstNext0, total, Prefix(res[..], ri + 1), s)
    requires |e| + ri <= s && rscale == |e| + ri && firstDiv == Prefix(e, 2)
    requires dividend.buf != res && forall g :: 0 <= g < 10 ==> divisor[g].buf != res
    modifies dividend, divisor, res
    ensures dividend.buf != res && forall g :: 0 <= g < 10 ==> divisor[g].buf != res
    ensures res[0] == old(res[0]) && ri' == ri + 1
    ensures stat == 0 ==> NextState(total, Prefix(res[..], ri' + 1), 0, e, ri' - 1, s)
    ensures stat != 0 ==> Ready(dividend, divisor, e, ri', firstHave, firstNext, total, Prefix(res[..], ri' + 1), s)
  {
    var guess;
    ghost var quot := Prefix(res[..], ri + 1);
    guess, stat, firstHave, firstNext :=
      DivideStep(dividend, divisor, e, ri, firstHave0, firstNext0, firstDiv, rscale, s, total, quot);
    ri' := ri + 1;
    PutQuotientDigit(res, ri', guess, 10 * quot + guess);
  }

  /** The loop of div_var: quotient digits go to res[1], res[2], ... */
  method DivideLoop(dividend: NumericVar, divisor: seq<NumericVar>, ghost e: seq<digit>, ndivisor: nat,
                    firstDiv: nat, n: nat, ghost s: int, ghost total: nat)
    returns (res: array<digit>, ri: nat, ghost rest: nat)
    requires dividend.Valid() && dividend.weight == 0 && dividend.rscale == dividend.ndigits
    requires Table(divisor, e) && dividend !in divisor && 1 <= |e| == ndivisor && e[0] != 0 && firstDiv == Prefix(e, 2)
    requires s == dividend.ndigits + |e| + n && total == dividend.Magnitude().At(s)
    modifies dividend, divisor
    ensures fresh(res) && Divided(total, res[..], ri, rest, e, n, s)
  {
    res := new digit[n + 2];
    res[0] := 0;
    var firstHave, firstNext, stat := 0, 0, 0;
    DividingStart(dividend.Magnitude().digits, e, s);
    ri := 0;
    while ri <= n
      invariant 0 <= ri <= n + 1 && res[0] == 0
      invariant Ready(dividend, divisor, e, ri, firstHave, firstNext, total, Prefix(res[..], ri + 1), s)
      invariant dividend.buf != res && forall g :: 0 <= g < 10 ==> divisor[g].buf != res
      modifies dividend, divisor, res
    {
      ri, stat, firstHave, firstNext := DivideRound(dividend, divisor, e, res, ri, firstHave, firstNext, firstDiv,
                                                    ndivisor + ri, s, total);
      if stat == 0 {
        rest := 0;
        return;
      }
    }
    rest := dividend.Magnitude().At(s);
    UnitStep(e, 2 - ri, s);
  }

  // ---------- rounding off the quotient ----------

  lemma UnitPow(e: seq<digit>, weight: int, k: nat, s: int)
    requires |e| <= s + weight
    ensures Unit(e, weight + k, s) == Pow10(k) * Unit(e, weight, s)
  {
    Pow10Add(k, s + weight - |e|);
    assert Prefix(e, |e|) * (Pow10(k) * Pow10(s + weight - |e|))
           == Pow10(k) * (Prefix(e, |e|) * Pow10(s + weight - |e|)) by {
      MulAssoc(Prefix(e, |e|), Pow10(k), Pow10(s + weight - |e|));
      MulAssoc(Pow10(k), Prefix(e, |e|), Pow10(s + weight - |e|));
    }
  }

  lemma EvenRounds(total: nat, q: nat, e: seq<digit>, k: nat, n: nat, s: int)
    requires |e| <= s + 1 - n && Unit(e, 1 - n, s) > 0
    requires total == q * Unit(e, 1 - n + (k + 1), s)
    ensures RoundDiv(total, 10 * Unit(e, 1 - n, s)) == q * Pow10(k)
  {
    var u := Unit(e, 1 - n, s);
    UnitPow(e, 1 - n, k + 1, s);
    TenIn(Pow10(k), u);
    MulAssoc(q, Pow10(k), 10 * u);
    MulAssoc(10, Pow10(k), u);
    RoundDivExact(q * Pow10(k), 10 * u);
  }

  /** Either all places were filled, the last being the rounding digit, or the division came out even. */
  lemma DividedRounds(total: nat, d: seq<digit>, ri: nat, rest: nat, e: seq<digit>, n: nat, s: int)
    requires Divided(total, d, ri, rest, e, n, s) && 1 <= |e| <= s + 1 - n && e[0] != 0
    ensures Unit(e, 1 - n, s) > 0
    ensures RoundDiv(total, 10 * Unit(e, 1 - n, s))
         == if ri == n + 1 then Prefix(d, ri) + (if d[ri] > 4 then 1 else 0) else Prefix(d, ri + 1) * Pow10(n - ri)
  {
    UnitBound(e, 1 - n, s);
    if ri == n + 1 {
      HalfUpDigit(total, Unit(e, 1 - n, s), Prefix(d, ri), d[ri], rest);
    } else {
      EvenRounds(total, Prefix(d, ri + 1), e, n - ri, n, s);
    }
  }

  /** The integers of the loop stand for the operands' values. */
  lemma DividedQuotient(a: Mag, b: Mag, n: nat, s: int, t: int)
    requires b.digits != [] && b.digits[0] != 0 && s == |a.digits| + |b.digits| + n
    requires t == n - (a.weight - b.weight + 1)
    ensures b.Coef() > 0 && Unit(b.digits, 1 - n, s) > 0
    ensures RoundDiv(Mag(a.digits, 0).At(s), 10 * Unit(b.digits, 1 - n, s))
         == Quotient(a.Coef(), a.Scale(), b.Coef(), b.Scale(), t)
  {
    var n1, n2 := |a.digits|, |b.digits|;
    LeadBound(b.digits, n2);
    UnitBound(b.digits, 1 - n, s);
    PrefixZeros(a.digits, n1, s + 1 - n1);
    TenIn(b.Coef(), Pow10(s + 1 - n - n2));
    QuotientScaled(a.Coef(), a.Scale(), b.Coef(), b.Scale(), t, s + 1 - n1, s + 2 - n - n2);
  }

  /** The rounding after the loop of div_var; the first nd digits are the result. */
  method RoundQuotient(res: array<digit>, ri0: nat, n: nat, weight: int, ghost q: nat) returns (nd: nat)
    requires res.Length == n + 2 && res[0] == 0 && 1 <= ri0 <= n + 1
    requires q == if ri0 == n + 1 then Prefix(res[..], ri0) + (if res[ri0] > 4 then 1 else 0)
                  else Prefix(res[..], ri0 + 1) * Pow10(n - ri0)
    modifies res
    ensures nd <= n + 1 && Mag(res[0..0 + nd], weight).Is(q, n - weight)
  {
    var ri := ri0;
    nd := ri + 1;
    if ri == n + 1 {
      var carry := if res[ri] > 4 then 1 else 0;
      nd := ri;
      PrefixShift(res[..], res[0..ri], 0, ri);
      res[ri] := 0;
      assert res[0..ri] == old(res[0..ri]);
      ri := PropagateCarry(res, 0, ri, carry);
    } else {
      PrefixShift(res[..], res[0..nd], 0, nd);
      PrefixZeros(res[0..nd], nd, n - ri);
    }
  }

  /** The number of decimals div_var rounds to: at least those asked for, and at least one digit. */
  function QuotientScale(a: Mag, b: Mag, rscale: int): int { Max(rscale, b.weight - a.weight) }

  /** The quotient of two magnitudes, rounded half up to t decimals, in units of 10^-t. */
  function QuotientOf(a: Mag, b: Mag, t: int): nat
    requires b.Coef() > 0
  {
    Quotient(a.Coef(), a.Scale(), b.Coef(), b.Scale(), t)
  }

  /** The quotient may be computed from the operands as they stand at any scales that fit them. */
  lemma QuotientIs(a: Mag, n: nat, r: int, b: Mag, m: nat, s: int, t: int)
    requires a.Is(n, r) && b.Is(m, s) && m > 0 && b.Coef() > 0
    ensures QuotientOf(a, b, t) == Quotient(n, r, m, s, t)
  {
    IsSame(a, a.Coef(), a.Scale(), n, r);
    IsSame(b, b.Coef(), b.Scale(), m, s);
    QuotientSame(a.Coef(), a.Scale(), n, r, b.Coef(), b.Scale(), m, s, t);
  }

  /** What div_var leaves is the multiple of 10^-t nearest to n / m, a tie going away from zero, for t decimals or as
      many
      as the divisor is longer. */
  lemma QuotientNearest(a: Mag, n: nat, b: Mag, m: nat, c: int, rscale: int, t: int, q: nat, x: nat, y: nat)
    requires a.Is(n, c) && b.Is(m, c) && m > 0 && b.Coef() > 0 && t == QuotientScale(a, b, rscale)
    requires q == QuotientOf(a, b, t) && x == n * Pow10(Max(0, t)) && y == m * Pow10(Max(0, -t))
    ensures t == if rscale < b.weight - a.weight then b.weight - a.weight else rscale
    ensures -(y as int) <= 2 * (x - q * y) < y
  {
    QuotientIs(a, n, c, b, m, c, t);
    MulMono(1, m, Pow10(Max(0, -t)));
    assert n * Pow10(0) == n && m * Pow10(0) == m;
    RoundDivBounds(x, y);
    assert 2 * (x - q * y) == 2 * x - 2 * (q * y);
  }

  lemma NonZero(m: Mag)
    requires m.digits != [] && m.digits[0] != 0
    ensures m.Coef() > 0
  {
    LeadBound(m.digits, |m.digits|);
  }

  lemma ZeroQuotient(a: Mag, b: Mag, t: int)
    requires a.digits == [] && b.Coef() > 0
    ensures QuotientOf(a, b, t) == 0 && Mag([], 0).Exactly(0, t)
  {
    AllZero(Mag([], 0), t);
    var k := t + b.Scale() - a.Scale();
    assert a.Coef() == 0;
    if k >= 0 {
      assert a.Coef() * Pow10(k) == 0;
      RoundDivExact(0, b.Coef());
    } else {
      MulMono(1, b.Coef(), Pow10(-k));
      RoundDivExact(0, b.Coef() * Pow10(-k));
    }
  }

  /** The local divisor table: ten fresh variables without digits. */
  method EmptyTable() returns (divisor: seq<NumericVar>)
    ensures |divisor| == 10 && fresh(divisor)
    ensures forall g, h :: 0 <= g < h < 10 ==> divisor[g] != divisor[h]
    ensures forall g :: 0 <= g < 10 ==> divisor[g].buf == null
  {
    divisor := [];
    while |divisor| < 10
      invariant |divisor| <= 10 && fresh(divisor)
      invariant forall g, h :: 0 <= g < h < |divisor| ==> divisor[g] != divisor[h]
      invariant forall g :: 0 <= g < |divisor| ==> divisor[g].buf == null
    {
      var v := new NumericVar();
      divisor := divisor + [v];
    }
  }

  /** A fresh buffer with pad zero digits before the digits of v. */
  method CopyDigits(v: NumericVar, ghost m: Mag, pad: nat) returns (b: array<digit>)
    requires v.Valid() && m == v.Magnitude()
    ensures fresh(b) && b.Length == pad + v.ndigits
    ensures forall k :: 0 <= k < pad ==> b[k] == 0
    ensures b[pad..] == m.digits
  {
    b := new digit[pad + v.ndigits];
    forall k | 0 <= k < b.Length {
      b[k] := if k < pad then 0 else v.buf[v.start + k - pad];
    }
  }

  /** divisor[1] of div_var: the digits of the divisor behind one zero digit. */
  method FirstEntry(v: NumericVar, ghost m: Mag, entry: NumericVar) returns (firstDiv: nat)
    requires v.Valid() && m == v.Magnitude() && m.digits != [] && v != entry
    modifies entry
    ensures Multiple(entry, 1, m.digits) && fresh(entry.buf) && firstDiv == Prefix(m.digits, 2)
  {
    var b := CopyDigits(v, m, 1);
    entry.ndigits, entry.rscale, entry.sign, entry.buf, entry.start := v.ndigits + 1, v.ndigits, Pos, b, 0;
    PrefixShift(b[..], m.digits, 1, |m.digits|);
    assert forall k :: 0 <= k < |m.digits| ==> b[1 + k] == b[1..][k];
    assert b[1] == m.digits[0] && (|m.digits| > 1 ==> b[2] == b[1..][1]);
    firstDiv := b[1] as int * 10;
    if v.ndigits + 1 > 2 { firstDiv := firstDiv + b[2] as int; }
    assert Prefix(m.digits, 0 + 1) == m.digits[0] as int
        && Prefix(m.digits, 1 + 1) == 10 * Prefix(m.digits, 1) + DigitAt(m.digits, 1) as int;
  }

  /** The local copies made by div_var, and its loop over them. */
  method DivideDigits(var1: NumericVar, ghost a: Mag, var2: NumericVar, ghost b: Mag, n: nat)
    returns (res: array<digit>, ri: nat, ghost rest: nat, ghost s: int)
    requires var1.Valid() && var2.Valid() && a == var1.Magnitude() && b == var2.Magnitude()
    requires b.digits != [] && b.digits[0] != 0
    ensures fresh(res) && s == |a.digits| + |b.digits| + n
    ensures Divided(Mag(a.digits, 0).At(s), res[..], ri, rest, b.digits, n, s)
  {
    s := |a.digits| + |b.digits| + n;
    var divisor := EmptyTable();
    var firstDiv := FirstEntry(var2, b, divisor[1]);
    var dividend := new NumericVar();
    var d := CopyDigits(var1, a, 0);
    dividend.ndigits, dividend.rscale, dividend.buf := var1.ndigits, var1.ndigits, d;
    assert dividend.Magnitude() == Mag(a.digits, 0);
    res, ri, rest := DivideLoop(dividend, divisor, b.digits, var2.ndigits, firstDiv, n, s, Mag(a.digits, 0).At(s));
  }

  /** The closing part of div_var: strip the quotient and put it in result. */
  method StoreQuotient(result: NumericVar, res: array<digit>, nd: nat, weight: int, rscale: int, sign: NumericSign,
                       ghost q: nat, ghost t: int)
    requires nd <= res.Length && sign != NaN && Mag(res[0..0 + nd], weight).Is(q, t)
    modifies result
    ensures result.buf == res && result.rscale == rscale && result.dscale == old(result.dscale)
    ensures result.ndigits == 0 ==> result.sign == Pos
    ensures result.Holds(if sign == Pos then q as int else -(q as int), t)
  {
    StripInto(result, res, nd, weight, rscale, false, q, t);
    result.SetSign(if result.ndigits == 0 then Pos else sign, q, t);
  }

  /** div_var for a divisor that is not zero. */
  method DivideNonZero(var1: NumericVar, ghost a: Mag, var2: NumericVar, ghost b: Mag, result: NumericVar,
                       globalRscale: int, resSign: NumericSign, ghost q: nat, ghost t: int)
    requires var1.Valid() && var2.Valid() && a == var1.Magnitude() && b == var2.Magnitude() && resSign != NaN
    requires b.digits != [] && b.digits[0] != 0 && b.Coef() > 0 && t == QuotientScale(a, b, globalRscale)
             && q == QuotientOf(a, b, t)
    modifies result
    ensures (result.buf == null || fresh(result.buf)) && result.rscale == globalRscale
            && result.dscale == old(result.dscale)
    ensures result.ndigits == 0 ==> result.sign == Pos
    ensures result.Holds(if resSign == Pos then q as int else -(q as int), t)
  {
    var resWeight := var1.weight - var2.weight + 1;
    var n := globalRscale + resWeight;
    if n <= 0 { n := 1; }
    if var1.ndigits == 0 {
      result.ZeroVar();
      result.rscale := globalRscale;
      ZeroQuotient(a, b, t);
      return;
    }
    var res, ri;
    ghost var rest, s;
    res, ri, rest, s := DivideDigits(var1, a, var2, b, n);
    DividedRounds(Mag(a.digits, 0).At(s), res[..], ri, rest, b.digits, n, s);
    DividedQuotient(a, b, n, s, t);
    var nd := RoundQuotient(res, ri, n, resWeight, q);
    StoreQuotient(result, res, nd, resWeight, globalRscale, resSign, q, t);
  }

  method DivVar(var1: NumericVar, var2: NumericVar, result: NumericVar, globalRscale: int)
    returns (ex: DecimalException)
    requires var1.Valid() && var2.Valid() && var1.sign != NaN && var2.sign != NaN
    requires var2.ndigits > 0 ==> var2.Magnitude().digits[0] != 0
    modifies result
    ensures old(var2.ndigits) == 0 ==> ex == DivideByZero && result.sign == NaN && result.buf == null
    ensures old(var2.ndigits) > 0 ==>
              ex == NoError && result.rscale == globalRscale && result.dscale == old(result.dscale)
    ensures old(var2.ndigits) > 0 ==> old(var2.Magnitude().Coef()) > 0
    ensures old(var2.ndigits) > 0 && result.ndigits == 0 ==> result.sign == Pos
    ensures old(var2.ndigits) > 0 ==> result.buf == null || fresh(result.buf)
    ensures old(var2.ndigits) > 0 ==>
              var t := QuotientScale(old(var1.Magnitude()), old(var2.Magnitude()), globalRscale);
              var q: int := QuotientOf(old(var1.Magnitude()), old(var2.Magnitude()), t);
              result.Holds(if old(var1.sign == var2.sign) then q else -q, t)
  {
    ghost var a, b := var1.Magnitude(), var2.Magnitude();
    var ndivisor := var2.ndigits;
    if ndivisor == 0 {
      result.FreeVar();
      return DivideByZero;
    }
    NonZero(b);
    var resSign := if var1.sign == var2.sign then Pos else Neg;
    ghost var t := QuotientScale(a, b, globalRscale);
    DivideNonZero(var1, a, var2, b, result, globalRscale, resSign, QuotientOf(a, b, t), t);
    return NoError;
  }

  /** div_var into a variable apart from its operands. */
  method Divide(var1: NumericVar, var2: NumericVar, tmp: NumericVar, rscale: int, ghost q: nat, ghost t: int)
    returns (ex: DecimalException)
    requires var1.Valid() && var2.Valid() && var1.sign != NaN && var2.sign != NaN && tmp !in {var1, var2}
    requires var2.ndigits > 0 ==> var2.Magnitude().digits[0] != 0 && var2.Magnitude().Coef() > 0
    requires t == QuotientScale(var1.Magnitude(), var2.Magnitude(), rscale)
    requires var2.ndigits > 0 ==> q == QuotientOf(var1.Magnitude(), var2.Magnitude(), t)
    modifies tmp
    ensures ex == if var2.ndigits == 0 then DivideByZero else NoError
    ensures ex == NoError ==>
              tmp.rscale == rscale && tmp.Holds(if var1.sign == var2.sign then q as int else -(q as int), t)
  {
    ex := DivVar(var1, var2, tmp, rscale);
  }
}
