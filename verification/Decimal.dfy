/** Decimal digit strings and the integers they stand for.
    A magnitude is a string of digits whose first digit is worth 10^weight.
    Everything about it is expressed by the integers At(s): the magnitude times
    10^s, cut off to a whole number. */
module Decimal {
  type digit = d: int | 0 <= d < 10

  function Max(a: int, b: int): int { if a > b then a else b }

  function Min(a: int, b: int): int { if a < b then a else b }

  function Abs(a: int): nat { if a < 0 then -a else a }

  function Sign(a: int): int { if a < 0 then -1 else if a == 0 then 0 else 1 }

  function WithSign(a: int, negative: bool): int { if negative then -a else a }

  // ---------- powers of ten ----------

  function Pow10(n: nat): (p: nat)
    ensures p >= 1
  {
    if n == 0 then 1 else 10 * Pow10(n - 1)
  }

  lemma {:induction false} Pow10Add(a: nat, b: nat)
    ensures Pow10(a + b) == Pow10(a) * Pow10(b)
    decreases a
  {
    if a > 0 {
      Pow10Add(a - 1, b);
      assert Pow10(a + b) == 10 * Pow10(a - 1 + b);
      MulAssoc(10, Pow10(a - 1), Pow10(b));
    }
  }

  lemma {:induction false} Pow10Mono(a: nat, b: nat)
    requires a <= b
    ensures Pow10(a) <= Pow10(b)
    ensures a < b ==> 10 * Pow10(a) <= Pow10(b)
    decreases b
  {
    if a < b { Pow10Mono(a, b - 1); }
  }

  // ---------- integer facts used with explicit arguments ----------

  lemma MulAssoc(a: int, b: int, c: int)
    ensures a * (b * c) == (a * b) * c
  {}

  /** The form in which a factor ten moves from a sum of digits to a power of ten. */
  lemma TenIn(p: int, t: int)
    ensures 10 * (p * t) == p * (10 * t)
  {}

  lemma MulMono(a: int, b: int, c: nat)
    requires a <= b
    ensures a * c <= b * c
  {}

  /** Quotient and remainder are determined by their defining equation. */
  lemma DivUnique(n: int, d: int, q: int, r: int)
    requires d > 0 && 0 <= r < d && n == q * d + r
    ensures n / d == q && n % d == r
  {
    var q', r' := n / d, n % d;
    assert n == q' * d + r';
    assert (q - q') * d == r' - r;
    if q - q' >= 1 { MulMono(1, q - q', d); assert false; }
    if q - q' <= -1 { MulMono(q - q', -1, d); assert false; }
  }

  lemma FloorAtLeast(r: nat, unit: nat, g: nat)
    requires unit > 0
    ensures g * unit <= r <==> g <= r / unit
  {
    var q, rest := r / unit, r % unit;
    assert r == q * unit + rest;
    if g <= q {
      MulMono(g, q, unit);
    } else {
      MulMono(q + 1, g, unit);
      assert (q + 1) * unit == q * unit + unit;
    }
  }

  // ---------- digit strings ----------

  /** Digit k of a string that is extended with zeros on both sides. */
  function DigitAt(d: seq<digit>, k: int): digit
  {
    if 0 <= k < |d| then d[k] else 0
  }

  /** The integer spelled by the first n digits (zeros follow the last digit). */
  function Prefix(d: seq<digit>, n: int): nat
  {
    if n <= 0 then 0 else 10 * Prefix(d, n - 1) + DigitAt(d, n - 1)
  }

  lemma {:induction false} PrefixBound(d: seq<digit>, n: nat)
    ensures Prefix(d, n) < Pow10(n)
  {
    if n > 0 { PrefixBound(d, n - 1); }
  }

  /** Strings that agree, shifted by k, on the digits that count have the same value. */
  lemma {:induction false} PrefixShift(a: seq<digit>, b: seq<digit>, k: int, n: int)
    requires forall j :: 0 <= j < n ==> DigitAt(a, j + k) == DigitAt(b, j)
    requires forall j :: 0 <= j < k ==> DigitAt(a, j) == 0
    requires forall j :: 0 <= j < -k ==> DigitAt(b, j) == 0
    ensures Prefix(a, n + k) == Prefix(b, n)
    decreases Max(n, n + k)
  {
    if n <= 0 && n + k > 0 {
      assert DigitAt(a, n + k - 1) == 0;
      PrefixShift(a, b, k, n - 1);
    } else if n > 0 {
      if n + k <= 0 { assert DigitAt(b, n - 1) == 0; } else { assert DigitAt(a, n - 1 + k) == DigitAt(b, n - 1); }
      PrefixShift(a, b, k, n - 1);
    }
  }

  lemma {:induction false} PrefixSplit(d: seq<digit>, i: nat, n: nat)
    requires i <= |d|
    ensures Prefix(d, i + n) == Prefix(d, i) * Pow10(n) + Prefix(d[i..], n)
    decreases n
  {
    if n > 0 {
      PrefixSplit(d, i, n - 1);
      assert DigitAt(d, i + n - 1) == DigitAt(d[i..], n - 1);
      assert Prefix(d, i + n) == 10 * Prefix(d, i + (n - 1)) + DigitAt(d, i + n - 1);
      var p, t := Prefix(d, i), Pow10(n - 1);
      TenIn(p, t);
    }
  }

  /** A new leading digit. */
  lemma PrefixCons(d: seq<digit>, e: seq<digit>)
    requires e != [] && e[1..] == d
    ensures Prefix(e, |e|) == e[0] * Pow10(|d|) + Prefix(d, |d|)
  {
    PrefixSplit(e, 1, |d|);
    assert Prefix(e, 1) == e[0];
  }

  /** Digits past index n are all zero: reading on only appends zeros. */
  lemma {:induction false} PrefixZeros(d: seq<digit>, n: nat, k: nat)
    requires forall j :: n <= j < |d| ==> d[j] == 0
    ensures Prefix(d, n + k) == Prefix(d, n) * Pow10(k)
    decreases k
  {
    if k > 0 {
      PrefixZeros(d, n, k - 1);
      assert Prefix(d, n + k) == 10 * Prefix(d, n + (k - 1)) + DigitAt(d, n + k - 1);
      var p, t := Prefix(d, n), Pow10(k - 1);
      TenIn(p, t);
    }
  }

  /** Reading fewer digits is integer division. */
  lemma {:induction false} PrefixDiv(d: seq<digit>, n: int, k: nat)
    ensures Prefix(d, n) == Prefix(d, n + k) / Pow10(k)
    ensures 0 <= Prefix(d, n + k) - Prefix(d, n) * Pow10(k) < Pow10(k)
    decreases k
  {
    if k > 0 {
      PrefixDiv(d, n, k - 1);
      var p, t, x := Prefix(d, n), Pow10(k - 1), Prefix(d, n + (k - 1));
      TenIn(p, t);
      assert n + k > 0 ==> Prefix(d, n + k) == 10 * x + DigitAt(d, n + k - 1);
      DivUnique(Prefix(d, n + k), Pow10(k), p, Prefix(d, n + k) - p * Pow10(k));
    } else {
      assert Prefix(d, n) * Pow10(0) == Prefix(d, n);
    }
  }

  /** Writing one digit of a string of length n changes its value by that digit's worth. */
  lemma {:induction false} PrefixUpdate(d: seq<digit>, i: nat, x: digit, n: nat)
    requires i < n <= |d|
    ensures Prefix(d[i := x], n) == Prefix(d, n) + (x - d[i]) * Pow10(n - 1 - i)
    decreases n
  {
    if i == n - 1 {
      PrefixShift(d[i := x], d, 0, i);
    } else {
      PrefixUpdate(d, i, x, n - 1);
      var c, t := x - d[i], Pow10(n - 2 - i);
      assert Pow10(n - 1 - i) == 10 * t;
      TenIn(c, t);
    }
  }

  /** Equal values of equal length mean equal digits. */
  lemma {:induction false} PrefixInjective(a: seq<digit>, b: seq<digit>, n: nat)
    requires Prefix(a, n) == Prefix(b, n)
    ensures forall j :: 0 <= j < n ==> DigitAt(a, j) == DigitAt(b, j)
  {
    if n > 0 {
      PrefixInjective(a, b, n - 1);
    }
  }
}

/** Magnitudes: a digit string with the weight of its first digit. */
module Magnitudes {
  import opened Decimal

  datatype Mag = Mag(digits: seq<digit>, weight: int) {
    /** The magnitude times 10^s, cut off to a whole number. */
    function At(s: int): nat { Prefix(digits, weight + s + 1) }

    /** The digit worth 10^p. */
    function Digit(p: int): digit { DigitAt(digits, weight - p) }

    /** No digit finer than 10^-s is set, so At(s) loses nothing. */
    ghost predicate Fits(s: int)
    {
      forall k :: 0 <= k < |digits| && weight + s + 1 <= k ==> digits[k] == 0
    }

    /** The magnitude is exactly n / 10^s. */
    ghost predicate Is(n: nat, s: int) { Fits(s) && At(s) == n }

    predicate Stripped() { digits == [] || (digits[0] != 0 && digits[|digits| - 1] != 0) }

    /** The magnitude is n / 10^s and has no leading or trailing zeros. */
    ghost predicate Exactly(n: nat, s: int) { Stripped() && Is(n, s) }

    /** The one stripped way to write n / 10^s (zero has weight 0). */
    ghost predicate Canon(n: nat, s: int)
    {
      Exactly(n, s) && (digits == [] ==> weight == 0)
    }

    /** The digits read as one integer. */
    function Coef(): nat { Prefix(digits, |digits|) }

    /** The number of decimals at which every digit is kept. */
    function Scale(): int { |digits| - weight - 1 }

    /** The magnitude times 10^s, rounded half up to a whole number. */
    function Round(s: int): nat { At(s) + if DigitAt(digits, weight + s + 1) > 4 then 1 else 0 }
  }

  /** a / b rounded half up. */
  function RoundDiv(a: nat, b: nat): nat
    requires b > 0
  {
    (2 * a + b) / (2 * b)
  }

  function FloorDiv(a: nat, b: nat): nat
    requires b > 0
  {
    a / b
  }

  /** n / 10^k rounded half up (a whole multiple when k is not positive). */
  function HalfUp(n: nat, k: int): nat
  {
    if k <= 0 then n * Pow10(-k) else RoundDiv(n, Pow10(k))
  }

  /** n / 10^k cut off. */
  function Cut(n: nat, k: int): nat
  {
    if k <= 0 then n * Pow10(-k) else FloorDiv(n, Pow10(k))
  }

  /** The quotient of a / 10^ea by b / 10^eb, rounded half up to t decimals. */
  function Quotient(a: nat, ea: int, b: nat, eb: int, t: int): nat
    requires b > 0
  {
    var k := t + eb - ea;
    if k >= 0 then RoundDiv(a * Pow10(k), b) else RoundDiv(a, b * Pow10(-k))
  }

  /** -1, 0 or 1 as the first magnitude is smaller, equal or larger. */
  function Compare(a: Mag, b: Mag): int
  {
    var s := Max(a.Scale(), b.Scale());
    Sign(a.At(s) - b.At(s))
  }

  // ---------- changing the scale ----------

  lemma AtStep(m: Mag, s: int)
    ensures m.At(s) == 10 * m.At(s - 1) + m.Digit(-s)
  {}

  lemma IsUp(m: Mag, n: nat, s: int, t: int)
    requires m.Is(n, s) && s <= t
    ensures m.Is(n * Pow10(t - s), t)
  {
    var i := m.weight + s + 1;
    if i >= 0 {
      PrefixZeros(m.digits, i, t - s);
    } else {
      AllZero(m, t);
      assert n * Pow10(t - s) == 0;
    }
  }

  /** A value that is a whole multiple has no digits below: it fits the coarser scale. */
  lemma IsDown(m: Mag, n: nat, s: int, t: int)
    requires t <= s && m.Is(n * Pow10(s - t), s)
    ensures m.Is(n, t)
  {
    var i, k := m.weight + t + 1, s - t;
    PrefixDiv(m.digits, i, k);
    DivUnique(n * Pow10(k), Pow10(k), n, 0);
    TailZero(m.digits, i, k);
    forall j | 0 <= j < |m.digits| && i <= j ensures m.digits[j] == 0 {
      if j < i + k { assert DigitAt(m.digits, j) == 0; }
    }
  }

  lemma {:induction false} TailZero(d: seq<digit>, i: int, k: nat)
    requires Prefix(d, i + k) == Prefix(d, i) * Pow10(k)
    ensures forall j :: i <= j < i + k ==> DigitAt(d, j) == 0
    decreases k
  {
    if k > 0 {
      PrefixDiv(d, i, k - 1);
      TenIn(Prefix(d, i), Pow10(k - 1));
      assert i + k > 0 ==> Prefix(d, i + k) == 10 * Prefix(d, i + (k - 1)) + DigitAt(d, i + k - 1) as int;
      TailZero(d, i, k - 1);
    }
  }

  lemma {:induction false} AllZero(m: Mag, s: int)
    requires forall k :: 0 <= k < |m.digits| ==> m.digits[k] == 0
    ensures m.At(s) == 0
    decreases m.weight + s + 1
  {
    if m.weight + s + 1 > 0 { AllZero(m, s - 1); }
  }

  /** At a coarser scale a magnitude is cut off. */
  lemma AtCut(m: Mag, n: nat, s: int, t: int)
    requires m.Is(n, s)
    ensures m.At(t) == Cut(n, s - t)
  {
    if t >= s {
      IsUp(m, n, s, t);
    } else {
      PrefixDiv(m.digits, m.weight + t + 1, s - t);
    }
  }

  /** Rounding looks at one digit only, yet rounds the whole value half up. */
  lemma RoundIsHalfUp(m: Mag, n: nat, s: int, t: int)
    requires m.Is(n, s)
    ensures m.Round(t) == HalfUp(n, s - t)
  {
    if t >= s {
      IsUp(m, n, s, t);
    } else {
      var k := s - t;
      var i := m.weight + t + 1;
      PrefixDiv(m.digits, i + 1, k - 1);
      HalfUpDigit(n, Pow10(k - 1), m.At(t), DigitAt(m.digits, i), n - m.At(t + 1) * Pow10(k - 1));
    }
  }

  /** Half up looks at the first dropped digit x only: what follows it is below one unit t. */
  lemma HalfUpDigit(n: nat, t: nat, p: nat, x: digit, r: nat)
    requires t > 0 && r < t
    requires n == (10 * p + x) * t + r
    ensures RoundDiv(n, 10 * t) == p + if x > 4 then 1 else 0
  {
    var c := if x > 4 then 1 else 0;
    assert n == 10 * p * t + x * t + r by { Distribute(10 * p, x, t); }
    assert x <= 4 ==> x * t <= 4 * t by { if x <= 4 { MulMono(x, 4, t); } }
    assert x > 4 ==> 5 * t <= x * t by { if x > 4 { MulMono(5, x, t); } }
    assert x * t <= 9 * t by { MulMono(x, 9, t); }
    RoundSplit(p, c, t, n, x * t, r);
    DivUnique(2 * n + 10 * t, 20 * t, p + c, 2 * n + 10 * t - (p + c) * (20 * t));
  }

  lemma RoundSplit(p: nat, c: nat, t: nat, n: nat, xt: nat, r: nat)
    requires n == 10 * p * t + xt + r
    ensures 2 * n + 10 * t - (p + c) * (20 * t) == 2 * xt + 2 * r + 10 * t - c * (20 * t)
  {}

  lemma DistributeLeft(a: int, b: int, c: int)
    ensures a * (b + c) == a * b + a * c
  {}

  lemma Distribute(a: int, b: int, t: int)
    ensures (a + b) * t == a * t + b * t
  {}

  // ---------- rounded division ----------

  lemma RoundDivScaled(a: nat, b: nat, c: nat)
    requires b > 0 && c > 0
    ensures b * c > 0 && RoundDiv(a * c, b * c) == RoundDiv(a, b)
  {
    var q, r := (2 * a + b) / (2 * b), (2 * a + b) % (2 * b);
    MulMono(1, b, c);
    MulMono(r + 1, 2 * b, c);
    MulMono(0, r, c);
    ScaleSum(a, b, c, q, r);
    DivUnique(2 * (a * c) + b * c, 2 * (b * c), q, r * c);
  }

  lemma ScaleSum(a: int, b: int, c: int, q: int, r: int)
    requires 2 * a + b == q * (2 * b) + r
    ensures 2 * (a * c) + b * c == q * (2 * (b * c)) + r * c
  {
    assert (2 * a + b) * c == 2 * (a * c) + b * c;
    assert (q * (2 * b) + r) * c == q * (2 * b) * c + r * c;
    assert q * (2 * b) * c == q * (2 * (b * c));
  }

  lemma RoundDivBounds(a: nat, b: nat)
    requires b > 0
    ensures 2 * (RoundDiv(a, b) * b) <= 2 * a + b < 2 * (RoundDiv(a, b) * b) + 2 * b
  {
    var q := RoundDiv(a, b);
    assert 2 * a + b == q * (2 * b) + (2 * a + b) % (2 * b);
    assert q * (2 * b) == 2 * (q * b);
  }

  /** The rounded quotient does not depend on the scales the operands are read at. */
  lemma QuotientScaled(a: nat, ea: int, b: nat, eb: int, t: int, x: nat, y: nat)
    requires b > 0 && x - y == t + eb - ea
    ensures b * Pow10(y) > 0 && RoundDiv(a * Pow10(x), b * Pow10(y)) == Quotient(a, ea, b, eb, t)
  {
    MulMono(1, b, Pow10(y));
    if x >= y {
      Pow10Add(x - y, y);
      MulAssoc(a, Pow10(x - y), Pow10(y));
      RoundDivScaled(a * Pow10(x - y), b, Pow10(y));
    } else {
      Pow10Add(y - x, x);
      MulAssoc(b, Pow10(y - x), Pow10(x));
      MulMono(1, b, Pow10(y - x));
      RoundDivScaled(a, b * Pow10(y - x), Pow10(x));
    }
  }

  lemma RoundDivExact(q: nat, b: nat)
    requires b > 0
    ensures RoundDiv(q * b, b) == q
  {
    DivUnique(2 * (q * b) + b, 2 * b, q, b);
  }

  lemma RoundDivIs(a: nat, b: nat, q: nat)
    requires b > 0 && 2 * (q * b) <= 2 * a + b < 2 * (q * b) + 2 * b
    ensures RoundDiv(a, b) == q
  {
    assert q * (2 * b) == 2 * (q * b);
    DivUnique(2 * a + b, 2 * b, q, 2 * a + b - 2 * (q * b));
  }

  lemma WholeProduct(a: int, f: int, b: int, g: int, p: int, h: int)
    requires a == f * b + g
    ensures a * p == f * p * b + g * p && (f * p + h) * b == f * p * b + h * b
  {
    Distribute(f * b, g, p);
    MulAssoc(f, b, p);
    MulAssoc(f, p, b);
    Distribute(f * p, h, b);
  }

  /** Adding a multiple of the divisor to a rounded quotient. */
  lemma WholeRounds(x: nat, b: nat, q: nat, y: nat, z: nat, hb: nat)
    requires b > 0 && x == y + z && q * b == y + hb && 2 * hb <= 2 * z + b < 2 * hb + 2 * b
    ensures RoundDiv(x, b) == q
  {
    RoundDivIs(x, b, q);
  }

  /** Rounding a quotient with whole part f. */
  lemma RoundWhole(a: nat, f: nat, b: nat, g: nat, p: nat, h: nat)
    requires b > 0 && a == f * b + g && h == RoundDiv(g * p, b)
    ensures RoundDiv(a * p, b) == f * p + h
  {
    RoundDivBounds(g * p, b);
    WholeProduct(a, f, b, g, p, h);
    WholeRounds(a * p, b, f * p + h, f * p * b, g * p, h * b);
  }

  // ---------- one number at two scales ----------

  /** a / 10^ea and b / 10^eb are the same number. */
  ghost predicate Same(a: nat, ea: int, b: nat, eb: int)
  {
    a * Pow10(Max(eb - ea, 0)) == b * Pow10(Max(ea - eb, 0))
  }

  lemma Cancel(a: int, b: int, k: int)
    requires k > 0 && a * k == b * k
    ensures a == b
  {
    if a < b { MulMono(a + 1, b, k); Distribute(a, 1, k); }
    if b < a { MulMono(b + 1, a, k); Distribute(b, 1, k); }
  }

  lemma SameFrom(a: nat, ea: int, b: nat, eb: int, x: nat, y: nat)
    requires x - y == eb - ea && a * Pow10(x) == b * Pow10(y)
    ensures Same(a, ea, b, eb)
  {
    var x0, y0 := Max(eb - ea, 0), Max(ea - eb, 0);
    var c := x - x0;
    Pow10Add(x0, c);
    Pow10Add(y0, c);
    MulAssoc(a, Pow10(x0), Pow10(c));
    MulAssoc(b, Pow10(y0), Pow10(c));
    Cancel(a * Pow10(x0), b * Pow10(y0), Pow10(c));
  }

  lemma SameTo(a: nat, ea: int, b: nat, eb: int, x: nat, y: nat)
    requires Same(a, ea, b, eb) && x - y == eb - ea
    ensures a * Pow10(x) == b * Pow10(y)
  {
    var x0, y0 := Max(eb - ea, 0), Max(ea - eb, 0);
    var c := x - x0;
    Pow10Add(x0, c);
    Pow10Add(y0, c);
    MulAssoc(a, Pow10(x0), Pow10(c));
    MulAssoc(b, Pow10(y0), Pow10(c));
  }

  lemma IsSame(m: Mag, n: nat, s: int, n': nat, s': int)
    requires m.Is(n, s) && m.Is(n', s')
    ensures Same(n, s, n', s')
  {
    IsUp(m, n, s, Max(s, s'));
    IsUp(m, n', s', Max(s, s'));
  }

  lemma SameProduct(a: nat, ea: int, b: nat, eb: int, c: nat, ec: int, d: nat, ed: int)
    requires Same(a, ea, b, eb) && Same(c, ec, d, ed)
    ensures Same(a * c, ea + ec, b * d, eb + ed)
  {
    var x, y, u, v := Max(eb - ea, 0), Max(ea - eb, 0), Max(ed - ec, 0), Max(ec - ed, 0);
    Pow10Add(x, u);
    Pow10Add(y, v);
    Regroup(a, Pow10(x), c, Pow10(u));
    Regroup(b, Pow10(y), d, Pow10(v));
    SameFrom(a * c, ea + ec, b * d, eb + ed, x + u, y + v);
  }

  lemma Regroup(a: int, x: int, c: int, u: int)
    ensures (a * x) * (c * u) == (a * c) * (x * u)
  {
    MulAssoc(a * x, c, u);
    MulAssoc(a, x, c);
    MulAssoc(a, c, x);
    MulAssoc(a * c, x, u);
  }

  /** Rounding a number to a scale it fits loses nothing. */
  lemma HalfUpSame(a: nat, ea: int, b: nat, eb: int, t: int)
    requires Same(a, ea, b, eb) && eb <= t
    ensures HalfUp(a, ea - t) == b * Pow10(t - eb)
  {
    if ea <= t {
      SameTo(a, ea, b, eb, t - ea, t - eb);
    } else {
      SameTo(a, ea, b, eb, 0, ea - eb);
      Pow10Add(t - eb, ea - t);
      MulAssoc(b, Pow10(t - eb), Pow10(ea - t));
      RoundDivExact(b * Pow10(t - eb), Pow10(ea - t));
    }
  }

  /** Cutting a number off at a scale it fits loses nothing. */
  lemma CutSame(a: nat, ea: int, b: nat, eb: int)
    requires Same(a, ea, b, eb)
    ensures Cut(a, ea - eb) == b
  {
    if ea > eb { DivUnique(a, Pow10(ea - eb), b, 0); }
  }

  /** Equal operands have equal quotients, whatever scales they are given at. */
  lemma QuotientSame(a: nat, ea: int, a': nat, ea': int, b: nat, eb: int, b': nat, eb': int, t: int)
    requires Same(a, ea, a', ea') && Same(b, eb, b', eb') && b > 0 && b' > 0
    ensures Quotient(a, ea, b, eb, t) == Quotient(a', ea', b', eb', t)
  {
    var e, f := Max(ea, ea'), Max(eb, eb');
    var p, q := Max(t + f - e, 0), Max(e - f - t, 0);
    SameTo(a, ea, a', ea', e - ea + p, e - ea' + p);
    SameTo(b, eb, b', eb', f - eb + q, f - eb' + q);
    QuotientScaled(a, ea, b, eb, t, e - ea + p, f - eb + q);
    QuotientScaled(a', ea', b', eb', t, e - ea' + p, f - eb' + q);
  }

  // ---------- comparison ----------

  lemma SignScaled(a: int, b: int, k: nat)
    requires k > 0
    ensures Sign(a * k - b * k) == Sign(a - b)
  {
    if a < b { MulMono(1, b - a, k); }
    if a > b { MulMono(1, a - b, k); }
    assert (a - b) * k == a * k - b * k && (b - a) * k == b * k - a * k;
  }

  lemma CompareUp(a: Mag, b: Mag, s: int, t: int)
    requires a.Fits(s) && b.Fits(s) && s <= t
    ensures Sign(a.At(t) - b.At(t)) == Sign(a.At(s) - b.At(s))
  {
    IsUp(a, a.At(s), s, t);
    IsUp(b, b.At(s), s, t);
    SignScaled(a.At(s), b.At(s), Pow10(t - s));
  }

  /** The comparison may be read off at any scale that fits both. */
  lemma CompareAt(a: Mag, b: Mag, s: int)
    requires a.Fits(s) && b.Fits(s)
    ensures Compare(a, b) == Sign(a.At(s) - b.At(s))
  {
    var e := Max(a.Scale(), b.Scale());
    assert a.Fits(e) && b.Fits(e);
    CompareUp(a, b, e, Max(s, e));
    CompareUp(a, b, s, Max(s, e));
  }

  // ---------- one magnitude, one stripped string ----------

  lemma {:induction false} LeadBound(d: seq<digit>, n: nat)
    requires n > 0 && DigitAt(d, 0) != 0
    ensures Prefix(d, n) >= Pow10(n - 1)
    decreases n
  {
    if n == 1 { assert Prefix(d, 0) == 0; } else { LeadBound(d, n - 1); }
  }

  /** A value with a leading digit: its size by its weight. */
  lemma LeadSize(m: Mag, n: nat, s: int)
    requires m.Is(n, s) && m.digits != [] && m.digits[0] != 0
    ensures m.weight + s >= 0 && Pow10(m.weight + s) <= n < Pow10(m.weight + s + 1)
  {
    LeadBound(m.digits, m.weight + s + 1);
    PrefixBound(m.digits, m.weight + s + 1);
  }

  /** The weight of a stripped magnitude is its order of size. */
  lemma StrippedSize(m: Mag, n: nat, s: int)
    requires m.Stripped() && m.Is(n, s)
    ensures n == 0 <==> m.digits == []
    ensures n > 0 ==> m.weight + s >= 0 && Pow10(m.weight + s) <= n < Pow10(m.weight + s + 1)
    ensures |m.digits| <= Max(0, m.weight + s + 1)
  {
    if m.digits != [] {
      var i := m.weight + s + 1;
      assert m.digits[0] != 0 && m.digits[|m.digits| - 1] != 0;
      LeadBound(m.digits, i);
      PrefixBound(m.digits, i);
    } else {
      AllZero(m, s);
    }
  }

  lemma SameSize(n: nat, a: nat, b: nat)
    requires Pow10(a) <= n < Pow10(a + 1) && Pow10(b) <= n < Pow10(b + 1)
    ensures a == b
  {
    if a < b { Pow10Mono(a + 1, b); }
    if b < a { Pow10Mono(b + 1, a); }
  }

  lemma StrippedUnique(a: Mag, b: Mag, n: nat, s: int)
    requires a.Stripped() && b.Stripped() && a.Is(n, s) && b.Is(n, s)
    ensures a.digits == b.digits
    ensures n > 0 ==> a == b
  {
    StrippedSize(a, n, s);
    StrippedSize(b, n, s);
    if n > 0 {
      SameSize(n, a.weight + s, b.weight + s);
      PrefixInjective(a.digits, b.digits, a.weight + s + 1);
      assert DigitAt(a.digits, |b.digits| - 1) == b.digits[|b.digits| - 1];
      assert DigitAt(b.digits, |a.digits| - 1) == a.digits[|a.digits| - 1];
      forall k | 0 <= k < |a.digits| ensures a.digits[k] == b.digits[k] {
        assert DigitAt(a.digits, k) == DigitAt(b.digits, k);
      }
    }
  }

  // ---------- the stripped string of a number ----------

  function DigitsOf(n: nat): seq<digit>
  {
    if n == 0 then [] else DigitsOf(n / 10) + [n % 10]
  }

  lemma {:induction false} DigitsOfValue(n: nat)
    ensures Prefix(DigitsOf(n), |DigitsOf(n)|) == n
    ensures n > 0 ==> |DigitsOf(n)| > 0 && DigitsOf(n)[0] != 0 && DigitsOf(n)[|DigitsOf(n)| - 1] == n % 10
  {
    if n > 0 {
      DigitsOfValue(n / 10);
      var d, e := DigitsOf(n / 10), DigitsOf(n);
      PrefixShift(d, e, 0, |d|);
    }
  }

  /** The stripped magnitude n / 10^s, with weight 0 for zero. */
  function Norm(n: nat, s: int): Mag
  {
    if n == 0 then Mag([], 0)
    else if n % 10 == 0 then Norm(n / 10, s - 1)
    else Mag(DigitsOf(n), |DigitsOf(n)| - 1 - s)
  }

  lemma {:induction false} NormIs(n: nat, s: int)
    ensures Norm(n, s).Canon(n, s)
    decreases n
  {
    if n == 0 {
      AllZero(Norm(n, s), s);
    } else if n % 10 == 0 {
      NormIs(n / 10, s - 1);
      IsUp(Norm(n, s), n / 10, s - 1, s);
      assert Pow10(1) == 10 * Pow10(0);
    } else {
      DigitsOfValue(n);
    }
  }

  lemma NormUnique(m: Mag, n: nat, s: int)
    requires m.Canon(n, s)
    ensures m == Norm(n, s)
  {
    NormIs(n, s);
    StrippedUnique(m, Norm(n, s), n, s);
    StrippedSize(m, n, s);
    StrippedSize(Norm(n, s), n, s);
  }

  /** The weight of a number is found from its order of size. */
  lemma WeightOf(n: nat, s: int, w: int)
    requires w + s >= 0 && Pow10(w + s) <= n < Pow10(w + s + 1)
    ensures Norm(n, s).weight == w
  {
    NormIs(n, s);
    StrippedSize(Norm(n, s), n, s);
    SameSize(n, Norm(n, s).weight + s, w + s);
  }
}
