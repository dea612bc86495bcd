/** numeric_sqrt: which number it stores, how near that is to the root, and when it is the correctly rounded root. */
module Roots {
  import opened Decimal
  import opened Magnitudes
  import opened Variables
  import opened Packed
  import opened Arithmetic
  import opened Quotients
  import opened SquareRoot

  // ---------- the correctly rounded root ----------

  function Isqrt(k: nat): (m: nat)
    ensures m * m <= k < (m + 1) * (m + 1)
  {
    if k == 0 then 0
    else
      var m := Isqrt(k - 1);
      if (m + 1) * (m + 1) <= k then m + 1 else m
  }

  /** The root of a / 10^r rounded half up to s decimals, in units of 10^-s. */
  function RootOf(a: nat, r: nat, s: nat): nat { (Isqrt(FloorDiv(4 * (a * Pow10(2 * s)), Pow10(r))) + 1) / 2 }

  /** n is that root: it lies between the midpoints around n. */
  ghost predicate RoundedRoot(n: nat, a: nat, r: nat, s: nat)
  {
    && (n >= 1 ==> (2 * n - 1) * (2 * n - 1) * Pow10(r) <= 4 * (a * Pow10(2 * s)))
    && 4 * (a * Pow10(2 * s)) < (2 * n + 1) * (2 * n + 1) * Pow10(r)
  }

  lemma RootOfIs(a: nat, r: nat, s: nat)
    ensures RoundedRoot(RootOf(a, r, s), a, r, s)
  {
    var z, v := 4 * (a * Pow10(2 * s)), Pow10(r);
    FloorBracket(z, v);
    OddSquares(z, v, FloorDiv(z, v), Isqrt(FloorDiv(z, v)), RootOf(a, r, s));
  }

  lemma OddSquares(z: nat, v: nat, k: nat, m: nat, n: nat)
    requires k * v <= z < (k + 1) * v && m * m <= k < (m + 1) * (m + 1) && n == (m + 1) / 2
    ensures (n >= 1 ==> (2 * n - 1) * (2 * n - 1) * v <= z) && z < (2 * n + 1) * (2 * n + 1) * v
  {
    if n >= 1 { SquareScaled(2 * n - 1, m, k, v); }
    assert (m + 1) * (m + 1) <= (2 * n + 1) * (2 * n + 1) by { SquareMono(m + 1, 2 * n + 1); }
    MulMono(k + 1, (2 * n + 1) * (2 * n + 1), v);
  }

  lemma SquareScaled(x: nat, m: nat, k: nat, v: nat)
    requires x <= m && m * m <= k
    ensures x * x * v <= k * v
  {
    SquareMono(x, m);
    MulMono(x * x, k, v);
  }

  lemma RootOfOnly(n: nat, a: nat, r: nat, s: nat)
    requires RoundedRoot(n, a, r, s)
    ensures n == RootOf(a, r, s)
  {
    var k, v := RootOf(a, r, s), Pow10(r);
    RootOfIs(a, r, s);
    if n < k {
      SquareMono(2 * n + 1, 2 * k - 1);
      MulMono((2 * n + 1) * (2 * n + 1), (2 * k - 1) * (2 * k - 1), v);
    }
    if k < n {
      SquareMono(2 * k + 1, 2 * n - 1);
      MulMono((2 * k + 1) * (2 * k + 1), (2 * n - 1) * (2 * n - 1), v);
    }
  }

  // ---------- the number that is stored ----------

  /** The midpoint above n, in units of 10^-(s+8). */
  function Mid(n: nat): nat { n * 100000000 + 50000000 }

  /** From here on the iteration ends at b or above. */
  function Low(b: nat): int { 2 * (b * b) - 3 * b }

  /** What becomes of the rounded root n, c being twice the argument in units of 10^-2(s+8), cut off: nothing if the
      iteration ends below 0.95 units, and one more if it ends at the midpoint above n. */
  function Ended(c: nat, n: nat): nat { if c < Low(95000000) then 0 else if c < Low(Mid(n)) then n else n + 1 }

  /** The root numeric_sqrt stores, in units of 10^-s. */
  function SqrtUnits(a: nat, r: nat, s: nat): nat { Ended(Twice(a, r, s + 8), RootOf(a, r, s)) }

  lemma LowMono(x: nat, y: nat)
    requires 0 < x <= y
    ensures Low(x) <= Low(y) && (x < y ==> Low(x) < Low(y))
  {
    var k := 2 * (x + y) - 3;
    assert Low(y) - Low(x) == (y - x) * k;
    MulMono(0, y - x, k);
    if x < y { MulMono(1, y - x, k); }
  }

  /** A fixed point that the iteration ends at is b or above exactly from Low(b) on. */
  lemma AtLeast(c: nat, x: nat, b: nat)
    requires x > 0 && Newton(c, x) == x && Untrapped(c, x) && b % 10 == 0 && b > 0
    ensures x >= b <==> c >= Low(b)
  {
    NewtonFixed(c, x);
    if x >= b {
      LowMono(b, x);
    } else {
      LowMono(x + 1, b);
      assert Low(x + 1) == 2 * (x * x) + x - 1;
    }
  }

  lemma MidSquare(n: nat)
    ensures Mid(n) * Mid(n) == 10000000000000000 * (n * n + n) + 2500000000000000
  {}

  /** The rounded root n in terms of c. */
  ghost predicate Between(c: nat, n: nat)
  {
    (n >= 1 ==> 2 * (Mid(n - 1) * Mid(n - 1)) <= c) && c < 2 * (Mid(n) * Mid(n))
  }

  /** Midpoints are far apart. */
  lemma MidBelow(j: nat, k: nat)
    requires j < k
    ensures 2 * (Mid(j) * Mid(j)) <= Low(Mid(k)) <= 2 * (Mid(k) * Mid(k))
  {
    FarApart(Mid(j), Mid(k));
  }

  lemma FarApart(b: nat, d: nat)
    requires b + 3 <= d
    ensures 2 * (b * b) <= Low(d) <= 2 * (d * d)
  {
    MulMono(b, d - 3, b);
    MulMono(b, d - 3, d);
    assert b * d - 3 * b >= b * b && d * d - 3 * d >= b * d;
  }

  lemma NoneBelow(c: nat)
    ensures c < 2 * (Mid(0) * Mid(0)) ==> c < Low(95000000)
    ensures c >= 20000000000000000 ==> c >= Low(95000000)
  {}

  lemma EndsBelow(c: nat, x: nat, n: nat)
    requires x > 0 && Newton(c, x) == x && Untrapped(c, x) && c < 2 * (Mid(n) * Mid(n))
    ensures x < Mid(n + 1)
  {
    AtLeast(c, x, Mid(n + 1));
    MidBelow(n, n + 1);
  }

  lemma EndsAbove(c: nat, x: nat, b: nat)
    requires x > 0 && Newton(c, x) == x && Untrapped(c, x) && b % 10 == 0 && b > 0 && 2 * (b * b) <= c
    ensures x >= b
  {
    AtLeast(c, x, b);
  }

  /** The iteration ends between the midpoints next but one. */
  lemma EndsBetween(c: nat, x: nat, n: nat)
    requires x > 0 && Newton(c, x) == x && Untrapped(c, x) && Between(c, n)
    ensures x < Mid(n + 1) && (n >= 1 ==> x >= Mid(n - 1)) && (n == 0 ==> x < 95000000)
  {
    EndsBelow(c, x, n);
    if n >= 1 {
      EndsAbove(c, x, Mid(n - 1));
    } else {
      EndsSmall(c, x);
    }
  }

  lemma EndsSmall(c: nat, x: nat)
    requires x > 0 && Newton(c, x) == x && Untrapped(c, x) && c < 2 * (Mid(0) * Mid(0))
    ensures x < 95000000
  {
    AtLeast(c, x, 95000000);
    NoneBelow(c);
  }

  /** The value the iteration ends at, rounded as the last division and the cut do it. */
  lemma EndedIs(c: nat, x: nat, n: nat, k: nat)
    requires x > 0 && Newton(c, x) == x && Untrapped(c, x) && Between(c, n)
    requires k == if x < 95000000 then 0 else RoundDiv(x, 100000000)
    ensures k == Ended(c, n)
  {
    AtLeast(c, x, 95000000);
    AtLeast(c, x, Mid(n));
    assert k == if x < 95000000 then 0 else if x < Mid(n) then n else n + 1 by {
      EndsBetween(c, x, n);
      NearestUnit(x, n, k);
    }
  }

  lemma NearestUnit(x: nat, n: nat, k: nat)
    requires x < Mid(n + 1) && (n >= 1 ==> x >= Mid(n - 1)) && (n == 0 ==> x < 95000000)
    requires k == if x < 95000000 then 0 else RoundDiv(x, 100000000)
    ensures k == if x < 95000000 then 0 else if x < Mid(n) then n else n + 1
  {}

  // ---------- the argument against squares ----------

  lemma FloorBracket(u: nat, t: nat)
    requires t > 0
    ensures FloorDiv(u, t) * t <= u < (FloorDiv(u, t) + 1) * t
  {
    Distribute(u / t, 1, t);
  }

  lemma BracketScale(c: nat, a: nat, t: nat, w: nat)
    requires w > 0 && c * t <= 2 * a < (c + 1) * t
    ensures c * (t * w) <= 2 * (a * w) < (c + 1) * (t * w)
  {
    MulMono(c * t, 2 * a, w);
    ProductBelow(2 * a, (c + 1) * t, w);
    MulAssoc(c, t, w);
    MulAssoc(c + 1, t, w);
    MulAssoc(2, a, w);
  }

  lemma ExactBracket(c: nat, a: nat, t: nat, v: nat)
    requires v > 0 && c == 2 * a * t
    ensures c * v == 2 * (a * (t * v)) < (c + 1) * v
  {
    MulAssoc(2 * a, t, v);
    MulAssoc(2, a, t * v);
    Distribute(c, 1, v);
  }

  lemma TwiceBrackets(a: nat, r: nat, s: nat)
    ensures var c, u, v := Twice(a, r, s), a * Pow10(2 * s), Pow10(r); c * v <= 2 * u < (c + 1) * v
  {
    var c, k := Twice(a, r, s), r - 2 * s;
    if k <= 0 {
      Pow10Add(-k, r);
      ExactBracket(c, a, Pow10(-k), Pow10(r));
    } else {
      Pow10Add(k, 2 * s);
      FloorBracket(2 * a, Pow10(k));
      BracketScale(c, a, Pow10(k), Pow10(2 * s));
    }
  }

  lemma SquareIff(c: nat, u: nat, v: nat, y: nat)
    requires v > 0 && c * v <= 2 * u < (c + 1) * v
    ensures 2 * (y * y) <= c <==> y * y * v <= u
    ensures 2 * (y * y) < c ==> y * y * v < u
  {
    MulAssoc(2, y * y, v);
    if 2 * (y * y) <= c { MulMono(2 * (y * y), c, v); } else { MulMono(c + 1, 2 * (y * y), v); }
    if 2 * (y * y) < c { ProductBelow(2 * (y * y), c, v); }
  }

  /** The argument in units of 10^-2s, for s = rscale + 8, against units of 10^-2rscale. */
  lemma EightPlaces(a: nat, rscale: nat)
    ensures a * Pow10(2 * (rscale + 8)) == (a * Pow10(2 * rscale)) * (100000000 * 100000000)
  {
    TenToEight();
    Pow10Add(8, 8);
    Pow10Add(2 * rscale, 16);
    MulAssoc(a, Pow10(2 * rscale), Pow10(16));
  }

  lemma ScaleDown(n: nat, d: nat, v: nat, w: nat)
    requires d > 0
    ensures (n * d) * (n * d) * v < w * (d * d) ==> n * n * v < w
    ensures w * (d * d) < (n * d) * (n * d) * v ==> w < n * n * v
  {
    Regroup(n, d, n, d);
    assert (n * n) * (d * d) * v == (n * n * v) * (d * d) by { MulAssoc(n * n, d * d, v); MulAssoc(n * n, v, d * d); }
    MulMono(1, d, d);
    if n * n * v <= w { MulMono(n * n * v, w, d * d); }
    if w <= n * n * v { MulMono(w, n * n * v, d * d); }
  }

  lemma StrictSquare(k: nat, v: nat)
    requires v > 0
    ensures k * k * v < (k + 1) * (k + 1) * v
  {
    assert (k + 1) * (k + 1) == k * k + 2 * k + 1;
    ProductBelow(k * k, (k + 1) * (k + 1), v);
  }

  lemma HalfSquare(z: nat, v: nat, k: nat, y: nat)
    requires y == k * 50000000
    ensures y * y * v <= z * (100000000 * 100000000) <==> k * k * v <= 4 * z
  {
    Regroup(k, 50000000, k, 50000000);
    assert y * y * v == 2500000000000000 * (k * k * v) by { MulAssoc(2500000000000000, k * k, v); }
  }

  /** The rounded root is found between the midpoints around it. */
  lemma RootBetween(a: nat, r: nat, s: nat)
    ensures Between(Twice(a, r, s + 8), RootOf(a, r, s))
  {
    var n, c, z, v := RootOf(a, r, s), Twice(a, r, s + 8), a * Pow10(2 * s), Pow10(r);
    RootOfIs(a, r, s);
    TwiceBrackets(a, r, s + 8);
    EightPlaces(a, s);
    HalfSquare(z, v, 2 * n + 1, Mid(n));
    SquareIff(c, a * Pow10(2 * (s + 8)), v, Mid(n));
    if n >= 1 {
      HalfSquare(z, v, 2 * n - 1, Mid(n - 1));
      SquareIff(c, a * Pow10(2 * (s + 8)), v, Mid(n - 1));
    }
  }

  // ---------- how near the stored root is ----------

  /** n is less than one away from the root of a / 10^r in units of 10^-s. */
  ghost predicate NearRoot(n: nat, a: nat, r: nat, s: nat)
  {
    && (n >= 1 ==> (n - 1) * (n - 1) * Pow10(r) < a * Pow10(2 * s))
    && a * Pow10(2 * s) < (n + 1) * (n + 1) * Pow10(r)
  }

  /** n is at most half a unit and 10^-8 above that root and less than half a unit below it: in units of 10^-(s+8). */
  ghost predicate NearestRoot(n: nat, a: nat, r: nat, s: nat)
  {
    var d, h, u := 100000000, 50000001, a * Pow10(2 * s + 16);
    n * d >= h && (n * d - h) * (n * d - h) * Pow10(r) <= u < Mid(n) * Mid(n) * Pow10(r)
  }

  lemma UnitSquare(n: nat, y: nat)
    requires y == n * 100000000
    ensures y * y == 10000000000000000 * (n * n)
  {}

  lemma EndedNear(c: nat, n: nat, k: nat, lo: nat, hi: nat)
    requires Between(c, n) && k == Ended(c, n)
    requires hi == (k + 1) * 100000000 && (k >= 1 ==> lo == (k - 1) * 100000000)
    ensures (k >= 1 ==> 2 * (lo * lo) < c) && c < 2 * (hi * hi)
  {
    if n == 0 { NoneBelow(c); }
    if k >= 1 {
      assert n >= 1;
      assert 2 * (lo * lo) < c by { UnitBelow(c, n, k, lo); }
    }
    assert c < 2 * (hi * hi) by { UnitAbove(c, n, k, hi); }
  }

  lemma UnitBelow(c: nat, n: nat, k: nat, lo: nat)
    requires n >= 1 && 2 * (Mid(n - 1) * Mid(n - 1)) <= c && lo == (k - 1) * 100000000
    requires k == n || (k == n + 1 && c >= Low(Mid(n)))
    ensures 2 * (lo * lo) < c
  {
    UnitSquare(k - 1, lo);
    MidSquare(if k == n then n - 1 else n);
  }

  lemma UnitAbove(c: nat, n: nat, k: nat, hi: nat)
    requires c < 2 * (Mid(n) * Mid(n)) && hi == (k + 1) * 100000000 && (k >= n || c < Low(95000000))
    ensures c < 2 * (hi * hi)
  {
    if k >= n { SquareMono(Mid(n), hi); } else { SquareMono(100000000, hi); }
  }

  /** The square root has an error below one unit of its last place. */
  lemma RootIsNear(a: nat, r: nat, s: nat)
    ensures a > 0 ==> NearRoot(SqrtUnits(a, r, s), a, r, s)
  {
    var n, k, c := RootOf(a, r, s), SqrtUnits(a, r, s), Twice(a, r, s + 8);
    RootBetween(a, r, s);
    EndedNear(c, n, k, if k >= 1 then (k - 1) * 100000000 else 0, (k + 1) * 100000000);
    TwiceBrackets(a, r, s + 8);
    EightPlaces(a, s);
    var u, v, z := a * Pow10(2 * (s + 8)), Pow10(r), a * Pow10(2 * s);
    SquareIff(c, u, v, (k + 1) * 100000000);
    ScaleDown(k + 1, 100000000, v, z);
    if k >= 1 {
      SquareIff(c, u, v, (k - 1) * 100000000);
      ScaleDown(k - 1, 100000000, v, z);
    }
  }

  lemma EndedNearest(c: nat, n: nat, k: nat, lo: int)
    requires Between(c, n) && k == Ended(c, n) >= 1 && lo == k * 100000000 - 50000001
    ensures 0 <= lo && 2 * (lo * lo) <= c < 2 * (Mid(k) * Mid(k)) && n <= k <= n + 1
  {
    if n == 0 { NoneBelow(c); }
    JustBelow(Mid(k - 1));
    SquareMono(Mid(n), Mid(k));
  }

  lemma JustBelow(b: nat)
    requires b >= 2
    ensures 2 * ((b - 1) * (b - 1)) <= Low(b) <= 2 * (b * b)
  {
    assert (b - 1) * (b - 1) == b * b - 2 * b + 1;
  }

  lemma LargeTwice(a: nat, r: nat, s: nat)
    requires a > 0 && r <= 2 * s
    ensures Twice(a, r, s + 8) >= 20000000000000000
  {
    var k := 2 * (s + 8) - r;
    TenToEight();
    Pow10Add(8, 8);
    Pow10Mono(16, k);
    MulMono(2, 2 * a, Pow10(k));
  }

  lemma AtLeastOne(a: nat, r: nat, s: nat)
    requires a > 0 && r <= 2 * s
    ensures SqrtUnits(a, r, s) >= 1
  {
    RootBetween(a, r, s);
    LargeTwice(a, r, s);
    NoneBelow(Twice(a, r, s + 8));
  }

  /** A root of an argument of no more than 2s decimals is never less than the correctly rounded one, and at most one
      more: it is less than half a unit below the root and at most half a unit and 10^-8 above. */
  lemma RootIsNearest(a: nat, r: nat, s: nat)
    requires a > 0 && r <= 2 * s
    ensures NearestRoot(SqrtUnits(a, r, s), a, r, s) && RootOf(a, r, s) <= SqrtUnits(a, r, s) <= RootOf(a, r, s) + 1
  {
    var n, k, c := RootOf(a, r, s), SqrtUnits(a, r, s), Twice(a, r, s + 8);
    var u, v := a * Pow10(2 * (s + 8)), Pow10(r);
    RootBetween(a, r, s);
    AtLeastOne(a, r, s);
    EndedNearest(c, n, k, k * 100000000 - 50000001);
    TwiceBrackets(a, r, s + 8);
    SquareIff(c, u, v, Mid(k));
    SquareIff(c, u, v, k * 100000000 - 50000001);
    assert 2 * (s + 8) == 2 * s + 16;
  }

  /** A root that is a whole number e of units is found exactly. */
  lemma ExactRoot(a: nat, r: nat, s: nat, e: nat)
    requires a * Pow10(2 * s) == e * e * Pow10(r)
    ensures RootOf(a, r, s) == e && SqrtUnits(a, r, s) == e
  {
    var c, u, v, y := Twice(a, r, s + 8), a * Pow10(2 * (s + 8)), Pow10(r), e * 100000000;
    ExactRounded(a, r, s, e);
    TwiceBrackets(a, r, s + 8);
    assert u == y * y * v by {
      EightPlaces(a, s);
      UnitSquare(e, y);
      MulAssoc(10000000000000000, e * e, v);
    }
    SquareIff(c, u, v, y);
    ExactEnded(c, v, e, y);
  }

  lemma ExactRounded(a: nat, r: nat, s: nat, e: nat)
    requires a * Pow10(2 * s) == e * e * Pow10(r)
    ensures RootOf(a, r, s) == e
  {
    OddNeighbours(e, Pow10(r));
    RootOfOnly(e, a, r, s);
  }

  lemma OddNeighbours(e: nat, v: nat)
    requires v > 0
    ensures e >= 1 ==> (2 * e - 1) * (2 * e - 1) * v <= 4 * (e * e * v)
    ensures 4 * (e * e * v) < (2 * e + 1) * (2 * e + 1) * v
  {
    assert 4 * (e * e * v) == (2 * e) * (2 * e) * v by { MulAssoc(4, e * e, v); }
    if e >= 1 { SquareScaled(2 * e - 1, 2 * e, (2 * e) * (2 * e), v); }
    StrictSquare(2 * e, v);
  }

  lemma ExactEnded(c: nat, v: nat, e: nat, y: nat)
    requires v > 0 && y == e * 100000000 && 2 * (y * y) <= c && c * v <= 2 * (y * y * v)
    ensures Ended(c, e) == e
  {
    MulAssoc(2, y * y, v);
    if c > 2 * (y * y) { ProductBelow(2 * (y * y), c, v); }
    UnitSquare(e, y);
    MidSquare(e);
  }

  // ---------- when it is the correctly rounded root ----------

  /** The arguments whose root is misrounded, c being twice the argument in units of 10^-2(s+8), cut off: those from
      3b/2 below the square of a midpoint b up to that square, and those with a root from 0.5 to 0.95 of the last
      place. */
  ghost predicate Misses(c: nat)
  {
    || (2 * (Mid(0) * Mid(0)) <= c < Low(95000000))
    || exists k: nat :: k >= 1 && Low(Mid(k)) <= c < 2 * (Mid(k) * Mid(k))
  }

  lemma MidOf(c: nat, n: nat, k: nat)
    requires Between(c, n) && k >= 1 && Low(Mid(k)) <= c < 2 * (Mid(k) * Mid(k))
    ensures n == k
  {
    if n < k { MidBelow(n, k); }
    if k < n - 1 { MidBelow(k, n - 1); }
  }

  lemma HeldRounded(c: nat, n: nat)
    requires Between(c, n) && Ended(c, n) != n
    ensures Misses(c)
  {
    if n == 0 {
      NoneBelow(c);
    } else if c < Low(95000000) {
      FirstMid(n - 1);
    } else {
      assert Low(Mid(n)) <= c < 2 * (Mid(n) * Mid(n));
    }
  }

  lemma FirstMid(n: nat)
    ensures 2 * (Mid(0) * Mid(0)) <= 2 * (Mid(n) * Mid(n))
  {
    SquareMono(Mid(0), Mid(n));
  }

  lemma LostRounded(c: nat, n: nat)
    requires Between(c, n) && Misses(c)
    ensures Ended(c, n) != n
  {
    if c < Low(95000000) {
      assert n != 0 by { if n == 0 { FirstMid(n); } }
    } else {
      var k: nat :| k >= 1 && Low(Mid(k)) <= c < 2 * (Mid(k) * Mid(k));
      MidOf(c, n, k);
    }
  }

  /** numeric_sqrt rounds correctly for exactly the other arguments. */
  lemma SqrtRoundsIff(a: nat, r: nat, s: nat)
    ensures SqrtUnits(a, r, s) == RootOf(a, r, s) <==> !Misses(Twice(a, r, s + 8))
  {
    var n, c := RootOf(a, r, s), Twice(a, r, s + 8);
    RootBetween(a, r, s);
    if Misses(c) { LostRounded(c, n); } else if Ended(c, n) != n { HeldRounded(c, n); }
  }

  /** One unit below one, at k decimals: its root is nearest to that number again, yet one is stored. */
  lemma RootMiss(p: Numeric, n: nat, k: nat)
    requires NUMERIC_MIN_RESULT_SCALE <= k <= NUMERIC_MAX_RESULT_SCALE && n == Pow10(k) && p == Encode(n - 1, k, 10)
    ensures p.Canonical() && p.Value() == n - 1
    ensures RootOf(n - 1, k, k) == n - 1 && Root(p) == Encode(n, k, 10)
  {
    Pow10Mono(k - 1, k);
    FractionStored(p, n - 1, k, 10);
    RootOfNines(p, n, k);
  }

  lemma RootOfNines(p: Numeric, n: nat, k: nat)
    requires NUMERIC_MIN_RESULT_SCALE <= k <= NUMERIC_MAX_RESULT_SCALE && n == Pow10(k)
    requires p.Value() == n - 1 && p.rscale == k && p.dscale == 10
    ensures RootOf(n - 1, k, k) == n - 1 && Root(p) == Encode(n, k, 10)
  {
    MissRounded(n, k);
    assert SqrtUnits(n - 1, k, k) == n by { MissEnded(n, k); }
    RootAs(p, n - 1, k, 10, k);
  }

  /** A fraction of k decimals with no leading zero, as stored. */
  lemma FractionStored(p: Numeric, m: nat, k: nat, d: nat)
    requires 1 <= k < 0x8000 && Pow10(k - 1) <= m < Pow10(k) && d < 0x4000 && p == Encode(m, k, d)
    ensures p.Canonical() && p.Value() == m && p.rscale == k && p.dscale == d
  {
    WeightOf(m, k, -1);
    DecodeEncode(m, k, d);
  }

  lemma MissRounded(n: nat, k: nat)
    requires n == Pow10(k) && n >= 3
    ensures RootOf(n - 1, k, k) == n - 1
  {
    Pow10Add(k, k);
    MulAssoc(n - 1, n, n);
    MissSquares(n);
    RootOfOnly(n - 1, n - 1, k, k);
  }

  lemma MissSquares(n: int)
    requires n >= 3
    ensures (2 * n - 3) * (2 * n - 3) * n <= 4 * ((n - 1) * n * n) < (2 * n - 1) * (2 * n - 1) * n
  {
    var k := (n - 1) * n;
    assert (2 * n - 3) * (2 * n - 3) == 4 * k - 8 * n + 9 && (2 * n - 1) * (2 * n - 1) == 4 * k + 1;
    MulMono(4 * k - 8 * n + 9, 4 * k, n);
    MulAssoc(4, k, n);
    ProductBelow(4 * k, 4 * k + 1, n);
  }

  lemma MissEnded(n: nat, k: nat)
    requires n == Pow10(k) && k >= 16
    ensures Ended(Twice(n - 1, k, k + 8), n - 1) == n
  {
    TenToEight();
    Pow10Add(8, 8);
    Pow10Add(k, 16);
    Pow10Mono(16, k);
    NearlyMid(n);
    MulAssoc(2 * (n - 1), n, 10000000000000000);
  }

  lemma NearlyMid(n: nat)
    requires n >= 10000000000000000
    ensures Low(95000000) <= Low(Mid(n - 1)) <= 2 * (n - 1) * (n * 10000000000000000)
  {
    LowMono(95000000, Mid(n - 1));
    MidSquare(n - 1);
  }

  // ---------- numeric_sqrt ----------

  /** The scales numeric_sqrt chooses. */
  function SqrtDscale(dscale: int): int
  {
    Min(Max(dscale, NUMERIC_MIN_DISPLAY_SCALE), NUMERIC_MAX_DISPLAY_SCALE)
  }

  function SqrtRscale(rscale: int, resDscale: int): int
  {
    Min(Max(Max(rscale, NUMERIC_MIN_RESULT_SCALE), resDscale + 4), NUMERIC_MAX_RESULT_SCALE)
  }

  /** The display scale kept between 10 and 1000, and the result scale: 2000, or the largest of the argument's, 34, and
      four places more than are displayed. */
  lemma SqrtScales(dscale: int, rscale: int, d: int)
    requires d == if dscale < 10 then 10 else if dscale > 1000 then 1000 else dscale
    ensures SqrtDscale(dscale) == d && SqrtRscale(rscale, d) == Min(2000, Max(rscale, Max(34, d + 4)))
  {}

  /** A result without digits agrees with the first value exactly when that is cut off to nothing. */
  lemma FreshStart(a: Mag, n: nat, r: int, s: nat, l: Mag)
    requires a.Is(n, r) && a.digits != [] && a.digits[0] != 0 && l.digits == []
    ensures var w, c, y := a.weight + 2 * s, Twice(n, r, s), First(a, Twice(n, r, s), s);
            (Stale(l, false, y, s) <==> w <= -2) && (w <= -2 ==> Settled(w, c, y))
  {
    var c := Twice(n, r, s);
    var y := First(a, c, s);
    StartIterates(a, s);
    NextBound(a, n, r, s, Guess(a), Guess(a).At(s), c, y);
    NormIs(y, s);
    RepeatsNothing(l, false, Norm(y, s), y, s);
  }

  /** sqrt_var on a result without digits. */
  method FreshRoot(arg: NumericVar, ghost a: Mag, rscale: nat, ghost n: nat, ghost r: int)
    returns (result: NumericVar, globalRscale: int, ex: DecimalException, ghost x: nat, ghost q: nat, ghost t: int)
    requires arg.Valid() && a == arg.Magnitude() && a.Is(n, r) && arg.sign != NaN
             && (a.digits != [] ==> a.digits[0] != 0)
    ensures fresh(result)
    ensures a.digits == [] ==>
              ex == NoError && globalRscale == rscale + 8 && result.Holds(0, rscale + 8) && result.rscale == rscale + 8
    ensures a.digits != [] && arg.sign == Neg ==>
              ex == UndefinedResult && globalRscale == rscale + 8 && result.sign == NaN
    ensures a.digits != [] && arg.sign == Pos ==>
              ex == NoError && globalRscale == rscale && result.rscale == rscale
              && IsRoot(n, r, a.weight, rscale, x, q, t) && result.Holds(q, t)
  {
    result := new NumericVar();
    if a.digits != [] { FreshStart(a, n, r, rscale + 8, Mag([], 0)); }
    globalRscale, ex, x, q, t := SqrtVar(arg, a, result, Mag([], 0), false, rscale, n, r);
  }

  method SqrtUnpacked(num: Numeric, rscale: nat)
    returns (result: NumericVar, globalRscale: int, ex: DecimalException, ghost x: nat, ghost q: nat, ghost t: int)
    requires num.Canonical()
    ensures fresh(result)
    ensures num.data == [] ==>
              ex == NoError && globalRscale == rscale + 8 && result.Holds(0, rscale + 8) && result.rscale == rscale + 8
    ensures num.data != [] && num.sign == Neg ==>
              ex == UndefinedResult && globalRscale == rscale + 8 && result.sign == NaN
    ensures num.data != [] && num.sign == Pos ==>
              ex == NoError && globalRscale == rscale && result.rscale == rscale
              && IsRoot(Abs(num.Value()), num.rscale, num.weight, rscale, x, q, t) && result.Holds(q, t)
  {
    TrimmedCanon(num);
    LeadingDigit(num);
    var arg := Unpacked(num);
    result, globalRscale, ex, x, q, t := FreshRoot(arg, num.Magnitude(), rscale, Abs(num.Value()), num.rscale);
  }

  lemma SmallFinal(x: nat, s: int, r: int, q: nat, t: int)
    requires x <= 1 && s == r + 8 && Final(x, s, r, q, t)
    ensures Cut(q, t - r) == 0
  {
    if x == 1 {
      TenToEight();
      assert q == RoundDiv(1, Pow10(s - t)) by {
        assert 1 * Pow10(s - t) == Pow10(s - t);
        assert t == s ==> 1 * Pow10(0) == 1;
      }
      RoundAtMost(1, Pow10(s - t), 2);
      CutBelowTen(q, t - r);
    } else {
      CutZero(t - r);
    }
  }

  lemma FinalUnits(x: nat, s: int, r: int, q: nat, t: int)
    requires x > 0 && s == r + 8 && Final(x, s, r, q, t)
    ensures Cut(q, t - r) == if x < 95000000 then 0 else RoundDiv(x, 100000000)
  {
    TenToEight();
    if x >= Pow10(8) {
      assert q == RoundDiv(x, 1 * Pow10(8));
      assert q * Pow10(0) == q;
    } else {
      var u := Pow10(s - t);
      assert q == RoundDiv(x, u) by { assert 1 * u == u; assert t == s ==> u == 1 && x * u == x; }
      SmallUnits(x, s - t, q, t - r);
    }
  }

  /** A root below one unit is brought to one digit, and that is cut off unless it became ten tenths. */
  lemma SmallUnits(x: nat, j: nat, q: nat, k: nat)
    requires x < 10 * Pow10(j) && q == RoundDiv(x, Pow10(j)) && k >= 1 && j + k == 8 && x < 100000000
    ensures Cut(q, k) == if x < 95000000 then 0 else RoundDiv(x, 100000000)
  {
    RoundSmall(x, Pow10(j));
    CutBelowTen(q, k);
    assert Pow10(1) == 10 && Pow10(4) == 10000 && Pow10(7) == 10000000 by { Pow10Add(3, 4); }
    if j < 7 {
      Pow10Mono(2, k);
      Pow10Mono(j + 1, 7);
      DivBelow(q, 1, Pow10(k));
    }
  }

  lemma SmallTwice(m: Mag, a: nat, r: nat, s: nat)
    requires m.Is(a, r) && m.digits != [] && m.digits[0] != 0 && m.weight + 2 * s < 0
    ensures Twice(a, r, s) <= 1
  {
    LeadSize(m, a, r);
    Pow10Mono(m.weight + r + 1, r - 2 * s);
    DivBelow(2 * a, 2, Pow10(r - 2 * s));
  }

  /** What sqrt_var leaves, cut off at rscale. */
  lemma RootFound(m: Mag, a: nat, r: nat, rscale: nat, x: nat, q: nat, t: int)
    requires m.Is(a, r) && m.digits != [] && m.digits[0] != 0 && IsRoot(a, r, m.weight, rscale, x, q, t)
    ensures Cut(q, t - rscale) == SqrtUnits(a, r, rscale)
  {
    RootBetween(a, r, rscale);
    if m.weight + 2 * (rscale + 8) < 0 {
      SmallTwice(m, a, r, rscale + 8);
      SmallFinal(x, rscale + 8, rscale, q, t);
      NoneBelow(Twice(a, r, rscale + 8));
    } else {
      FinalUnits(x, rscale + 8, rscale, q, t);
      EndedIs(Twice(a, r, rscale + 8), x, RootOf(a, r, rscale), Cut(q, t - rscale));
    }
  }

  lemma SignOfValue(p: Numeric)
    requires p.Canonical()
    ensures p.Value() == 0 <==> p.data == []
    ensures p.data != [] ==> (p.Value() > 0 <==> p.sign == Pos) && (p.Value() < 0 <==> p.sign == Neg)
  {
    TrimmedCanon(p);
  }

  method PackRoot(result: NumericVar, ghost q: nat, ghost t: int, rscale: int, dscale: int) returns (res: Numeric)
    requires result.Holds(q, t) && result.rscale == rscale
    modifies result
    ensures res == Encode(Cut(q, t - rscale), rscale, dscale)
  {
    result.SetDscale(dscale, q, t);
    res := PackCut(result, q, t, rscale, dscale);
  }

  /** What numeric_sqrt stores for a number that is not negative. */
  function Root(p: Numeric): Numeric
    requires p.Value() >= 0
  {
    var d := SqrtDscale(p.dscale);
    var s := SqrtRscale(p.rscale, d);
    if p.Value() == 0 then Encode(0, s + 8, d) else Encode(SqrtUnits(p.Value(), p.rscale, s), s, d)
  }

  lemma RootAs(p: Numeric, a: nat, r: nat, d: int, s: int)
    requires a == p.Value() && r == p.rscale && s == Min(2000, Max(r, Max(34, d + 4)))
    requires d == if p.dscale < 10 then 10 else if p.dscale > 1000 then 1000 else p.dscale
    ensures Root(p) == if a == 0 then Encode(0, s + 8, d) else Encode(SqrtUnits(a, r, s), s, d)
  {
    SqrtScales(p.dscale, r, d);
  }

  method NumericSqrt(num: Numeric, globalRscale0: int) returns (res: Numeric, globalRscale: int, ex: DecimalException)
    requires Stored(num)
    ensures IsNaN(num) ==> res == Numeric(0, 0, NaN, 0, []) && ex == NoError && globalRscale == globalRscale0
    ensures !IsNaN(num) ==>
              var d := if num.dscale < 10 then 10 else if num.dscale > 1000 then 1000 else num.dscale;
              var s := Min(2000, Max(num.rscale, Max(34, d + 4)));
              var a := num.Value();
              && (a == 0 ==> ex == NoError && globalRscale == s + 8)
              && (a < 0 ==> ex == UndefinedResult && globalRscale == s + 8 && res == Numeric(0, 0, NaN, 0, []))
              && (a > 0 ==> ex == NoError && globalRscale == s)
              && (a >= 0 ==> res == Root(num) && res.rscale == globalRscale && res.dscale == d)
  {
    if IsNaN(num) { return NUMERIC_NAN, globalRscale0, NoError; }
    SqrtScales(num.dscale, num.rscale, SqrtDscale(num.dscale));
    SignOfValue(num);
    var resDscale := num.dscale;
    resDscale := Max(resDscale, NUMERIC_MIN_DISPLAY_SCALE);
    resDscale := Min(resDscale, NUMERIC_MAX_DISPLAY_SCALE);
    var rscale := Max(num.rscale, NUMERIC_MIN_RESULT_SCALE);
    rscale := Max(rscale, resDscale + 4);
    rscale := Min(rscale, NUMERIC_MAX_RESULT_SCALE);
    var result;
    ghost var x, q, t;
    result, globalRscale, ex, x, q, t := SqrtUnpacked(num, rscale);
    if ex != NoError {
      res := MakeResult(result);
    } else if num.data == [] {
      result.SetDscale(resDscale, 0, rscale + 8);
      res := PackExact(result, 0, rscale + 8, resDscale);
    } else {
      LeadingDigit(num);
      RootFound(num.Magnitude(), num.Value(), num.rscale, rscale, x, q, t);
      res := PackRoot(result, q, t, rscale, resDscale);
    }
  }
}
