/** Laws of the packed operations, stated on the stored bytes. */
module Laws {
  import opened Decimal
  import opened Magnitudes
  import opened Variables
  import opened AddSub
  import opened Packed
  import opened Arithmetic

  /** Both operands are numbers and their sum fits the 16-bit fields. */
  ghost predicate SumFits(p: Numeric, q: Numeric)
  {
    p.Canonical() && q.Canonical()
    && var r := Max(p.rscale, q.rscale);
       InRange(p.Signed(r) + q.Signed(r), r, Max(p.dscale, q.dscale))
  }

  ghost predicate ProductFits(p: Numeric, q: Numeric)
  {
    p.Canonical() && q.Canonical() && InRange(p.Value() * q.Value(), p.rscale + q.rscale, p.dscale + q.dscale)
  }

  lemma SignedAt(p: Numeric, s: int)
    requires p.Canonical() && p.rscale <= s
    ensures p.Signed(s) == p.Value() * Pow10(s - p.rscale)
  {
    IsUp(p.Magnitude(), p.Magnitude().At(p.rscale), p.rscale, s);
    NegScaled(p.Magnitude().At(p.rscale), Pow10(s - p.rscale));
  }

  lemma SignedTwice(p: Numeric, s: int, t: int)
    requires p.Canonical() && p.rscale <= s <= t
    ensures p.Signed(t) == p.Signed(s) * Pow10(t - s)
  {
    SignedAt(p, s);
    SignedAt(p, t);
    Pow10Add(s - p.rscale, t - s);
    MulAssoc(p.Value(), Pow10(s - p.rscale), Pow10(t - s));
  }

  /** A sum that fits is canonical and its value is the sum of the values, at every scale. */
  lemma SumIs(p: Numeric, q: Numeric, s: int)
    requires SumFits(p, q) && Max(p.rscale, q.rscale) <= s
    ensures Sum(p, q).Canonical() && Sum(p, q).Signed(s) == p.Signed(s) + q.Signed(s)
    ensures Sum(p, q).rscale == Max(p.rscale, q.rscale) && Sum(p, q).dscale == Max(p.dscale, q.dscale)
  {
    var r, d := Max(p.rscale, q.rscale), Max(p.dscale, q.dscale);
    var n, v := p.Signed(r) + q.Signed(r), Sum(p, q);
    SumEncodes(p, q, n, r, d);
    EncodedIs(v, n, r, d, s);
    SignedTwice(p, r, s);
    SignedTwice(q, r, s);
    ScaledSum(n, p.Signed(r), q.Signed(r), Pow10(s - r), v.Signed(s), p.Signed(s), q.Signed(s));
  }

  /** A number that came out of Encode, read at a finer scale. */
  lemma EncodedIs(v: Numeric, n: int, r: int, d: int, s: int)
    requires InRange(n, r, d) && v == Encode(n, r, d) && r <= s
    ensures v.Canonical() && v.rscale == r && v.dscale == d && v.Value() == n
    ensures v.Signed(s) == n * Pow10(s - r)
  {
    DecodeEncode(n, r, d);
    SignedAt(v, s);
  }

  lemma ScaledSum(v: int, a: int, b: int, k: int, v': int, a': int, b': int)
    requires v == a + b && v' == v * k && a' == a * k && b' == b * k
    ensures v' == a' + b'
  {}

  lemma ProductIs(p: Numeric, q: Numeric)
    requires ProductFits(p, q)
    ensures Product(p, q).Canonical() && Product(p, q).Value() == p.Value() * q.Value()
    ensures Product(p, q).rscale == p.rscale + q.rscale && Product(p, q).dscale == p.dscale + q.dscale
  {
    var n, r, d := p.Value() * q.Value(), p.rscale + q.rscale, p.dscale + q.dscale;
    ProductEncodes(p, q, n, r, d);
    EncodedIs(Product(p, q), n, r, d, r);
  }

  // ---------- addition and multiplication form a ring, byte for byte ----------

  lemma SumCommutes(p: Numeric, q: Numeric)
    ensures Sum(p, q) == Sum(q, p)
  {}

  lemma SumAssociates(p: Numeric, q: Numeric, r: Numeric)
    requires SumFits(p, q) && SumFits(q, r)
    ensures Sum(Sum(p, q), r) == Sum(p, Sum(q, r))
  {
    var s, d := Max(Max(p.rscale, q.rscale), r.rscale), Max(Max(p.dscale, q.dscale), r.dscale);
    var n := p.Signed(s) + q.Signed(s) + r.Signed(s);
    assert Sum(Sum(p, q), r) == Encode(n, s, d) by {
      SumIs(p, q, s);
      SumEncodes(Sum(p, q), r, n, s, d);
    }
    assert Sum(p, Sum(q, r)) == Encode(n, s, d) by {
      SumIs(q, r, s);
      SumEncodes(p, Sum(q, r), n, s, d);
    }
  }

  lemma ProductCommutes(p: Numeric, q: Numeric)
    ensures Product(p, q) == Product(q, p)
  {}

  lemma ProductAssociates(p: Numeric, q: Numeric, r: Numeric)
    requires ProductFits(p, q) && ProductFits(q, r)
    ensures Product(Product(p, q), r) == Product(p, Product(q, r))
  {
    var n, s, d := p.Value() * q.Value() * r.Value(), p.rscale + q.rscale + r.rscale, p.dscale + q.dscale + r.dscale;
    assert Product(Product(p, q), r) == Encode(n, s, d) by {
      ProductIs(p, q);
      ProductEncodes(Product(p, q), r, n, s, d);
    }
    assert Product(p, Product(q, r)) == Encode(n, s, d) by {
      ProductIs(q, r);
      MulAssoc(p.Value(), q.Value(), r.Value());
      ProductEncodes(p, Product(q, r), n, s, d);
    }
  }

  /** u has the value and the scales of the product. */
  ghost predicate IsProduct(u: Numeric, p: Numeric, q: Numeric)
  {
    u.Canonical() && u.Value() == p.Value() * q.Value() && u.rscale == p.rscale + q.rscale
    && u.dscale == p.dscale + q.dscale
  }

  /** A product read at a finer scale: the second factor is read as much finer. */
  lemma ProductAtScale(u: Numeric, p: Numeric, q: Numeric, s: int, v: int)
    requires IsProduct(u, p, q) && q.Canonical() && u.rscale <= s && v == q.Signed(s - p.rscale)
    ensures u.Signed(s) == p.Value() * v
  {
    SignedAt(q, s - p.rscale);
    SignedAt(u, s);
    MulAssoc(p.Value(), q.Value(), Pow10(s - p.rscale - q.rscale));
  }

  lemma ProductDistributes(p: Numeric, q: Numeric, r: Numeric)
    requires SumFits(q, r) && ProductFits(p, q) && ProductFits(p, r)
    ensures Product(p, Sum(q, r)) == Sum(Product(p, q), Product(p, r))
  {
    var t := Max(q.rscale, r.rscale);
    var n, s, d := p.Value() * (q.Signed(t) + r.Signed(t)), p.rscale + t, p.dscale + Max(q.dscale, r.dscale);
    ProductOfSum(p, q, r, Sum(q, r), n, s, d);
    SumOfProducts(p, q, r, n, s, d);
  }

  lemma ProductOfSum(p: Numeric, q: Numeric, r: Numeric, u: Numeric, n: int, s: int, d: int)
    requires SumFits(q, r) && u == Sum(q, r) && p.Canonical()
    requires s == p.rscale + Max(q.rscale, r.rscale) && d == p.dscale + Max(q.dscale, r.dscale)
    requires n == p.Value() * (q.Signed(s - p.rscale) + r.Signed(s - p.rscale))
    ensures Product(p, u) == Encode(n, s, d)
  {
    var t := s - p.rscale;
    SumValue(q, r, u, t, q.Signed(t) + r.Signed(t));
    ProductOfValue(p, u, q.Signed(t) + r.Signed(t), n, s, d);
  }

  lemma SumValue(p: Numeric, q: Numeric, u: Numeric, r: int, v: int)
    requires SumFits(p, q) && u == Sum(p, q) && r == Max(p.rscale, q.rscale) && v == p.Signed(r) + q.Signed(r)
    ensures u.sign != NaN && u.Value() == v && u.rscale == r && u.dscale == Max(p.dscale, q.dscale)
  {
    SumIs(p, q, r);
  }

  lemma ProductOfValue(p: Numeric, u: Numeric, v: int, n: int, s: int, d: int)
    requires p.sign != NaN && u.sign != NaN && u.Value() == v && n == p.Value() * v && s == p.rscale + u.rscale
             && d == p.dscale + u.dscale
    ensures Product(p, u) == Encode(n, s, d)
  {
    ProductEncodes(p, u, n, s, d);
  }

  lemma SumOfProducts(p: Numeric, q: Numeric, r: Numeric, n: int, s: int, d: int)
    requires ProductFits(p, q) && ProductFits(p, r) && s == p.rscale + Max(q.rscale, r.rscale)
             && d == p.dscale + Max(q.dscale, r.dscale)
    requires n == p.Value() * (q.Signed(s - p.rscale) + r.Signed(s - p.rscale))
    ensures Sum(Product(p, q), Product(p, r)) == Encode(n, s, d)
  {
    ProductIs(p, q);
    ProductIs(p, r);
    SumOfTerms(Product(p, q), Product(p, r), p, q, r, n, s, d);
  }

  lemma SumOfTerms(u: Numeric, v: Numeric, p: Numeric, q: Numeric, r: Numeric, n: int, s: int, d: int)
    requires IsProduct(u, p, q) && IsProduct(v, p, r) && q.Canonical() && r.Canonical()
    requires s == p.rscale + Max(q.rscale, r.rscale) && d == p.dscale + Max(q.dscale, r.dscale)
    requires n == p.Value() * (q.Signed(s - p.rscale) + r.Signed(s - p.rscale))
    ensures Sum(u, v) == Encode(n, s, d)
  {
    var x, y := q.Signed(s - p.rscale), r.Signed(s - p.rscale);
    ProductAtScale(u, p, q, s, x);
    ProductAtScale(v, p, r, s, y);
    AddUp(n, p.Value(), x, y, u.Signed(s), v.Signed(s));
    SumEncodes(u, v, n, s, d);
  }

  lemma AddUp(n: int, v: int, a: int, b: int, x: int, y: int)
    requires n == v * (a + b) && x == v * a && y == v * b
    ensures n == x + y
  {
    DistributeLeft(v, a, b);
  }

  lemma NegationIs(p: Numeric)
    requires p.Canonical()
    ensures Negation(p).Canonical() && Negation(p).Value() == -p.Value()
    ensures Negation(p).rscale == p.rscale && Negation(p).dscale == p.dscale
  {
    assert InRange(-p.Value(), p.rscale, p.dscale) by { EncodeDecode(p); }
    EncodedIs(Negation(p), -p.Value(), p.rscale, p.dscale, p.rscale);
  }

  lemma NegatedAt(q: Numeric, v: Numeric, s: int)
    requires q.Canonical() && v.Canonical() && v.rscale == q.rscale && v.Value() == -q.Value() && q.rscale <= s
    ensures v.Signed(s) == -q.Signed(s)
  {
    SignedAt(q, s);
    SignedAt(v, s);
    NegScaled(q.Value(), Pow10(s - q.rscale));
  }

  /** numeric_sub(a, b) is numeric_add(a, numeric_uminus(b)). */
  lemma DifferenceIsSum(p: Numeric, q: Numeric)
    requires p.Canonical() && q.Canonical()
    ensures Difference(p, q) == Sum(p, Negation(q))
  {
    var r, d := Max(p.rscale, q.rscale), Max(p.dscale, q.dscale);
    var n := p.Signed(r) - q.Signed(r);
    NegationIs(q);
    NegatedAt(q, Negation(q), r);
    DifferenceEncodes(p, q, n, r, d);
    SumEncodes(p, Negation(q), n, r, d);
  }

  lemma NegationTwice(p: Numeric)
    requires p.Canonical()
    ensures Negation(Negation(p)) == p
  {
    NegationIs(p);
    EncodeDecode(p);
  }

  // ---------- the order ----------

  lemma OrderReflects(p: Numeric, q: Numeric)
    requires Stored(p) && Stored(q)
    ensures Order(q, p) == -Order(p, q)
  {}

  lemma OrderTransitive(p: Numeric, q: Numeric, r: Numeric)
    requires Stored(p) && Stored(q) && Stored(r)
    requires Order(p, q) <= 0 && Order(q, r) <= 0
    ensures Order(p, r) <= 0
    ensures Order(p, r) == 0 ==> Order(p, q) == 0 && Order(q, r) == 0
  {
    if !IsNaN(p) && !IsNaN(q) && !IsNaN(r) {
      var s := Max(Max(p.rscale, q.rscale), r.rscale);
      OrderAt(p, q, s);
      OrderAt(q, r, s);
      OrderAt(p, r, s);
    }
  }

  /** Adding the same number to both sides does not change a comparison. */
  lemma OrderTranslates(p: Numeric, q: Numeric, c: Numeric)
    requires SumFits(p, c) && SumFits(q, c)
    ensures Order(Sum(p, c), Sum(q, c)) == Order(p, q)
  {
    var s := Max(Max(p.rscale, q.rscale), c.rscale);
    SumIs(p, c, s);
    SumIs(q, c, s);
    OrderAt(p, q, s);
    OrderAt(Sum(p, c), Sum(q, c), s);
  }

  lemma SignOfProduct(a: int, b: int, c: int)
    ensures Sign(c * a - c * b) == Sign(c) * Sign(a - b)
  {
    assert c * a - c * b == c * (a - b);
    if c > 0 { SignScaled(a, b, c); }
    if c < 0 { SignScaled(b, a, -c); }
  }

  /** Multiplying both sides by the same number keeps a comparison, reverses it or makes it equal, as the number is
      positive, negative or zero. */
  lemma OrderScales(p: Numeric, q: Numeric, c: Numeric)
    requires ProductFits(c, p) && ProductFits(c, q)
    ensures Order(Product(c, p), Product(c, q)) == Sign(c.Value()) * Order(p, q)
  {
    var t := Max(p.rscale, q.rscale);
    ProductIs(c, p);
    ProductIs(c, q);
    ScaledOrders(Product(c, p), Product(c, q), p, q, c, t, c.rscale + t, p.Signed(t), q.Signed(t));
  }

  lemma ScaledOrders(u: Numeric, v: Numeric, p: Numeric, q: Numeric, c: Numeric, t: int, s: int, a: int, b: int)
    requires IsProduct(u, c, p) && IsProduct(v, c, q) && p.Canonical() && q.Canonical()
    requires t == Max(p.rscale, q.rscale) && s == c.rscale + t && a == p.Signed(t) && b == q.Signed(t)
    ensures Order(u, v) == Sign(c.Value()) * Order(p, q)
  {
    ProductAtScale(u, c, p, s, a);
    ProductAtScale(v, c, q, s, b);
    OrderAt(u, v, s);
    OrderAt(p, q, t);
    SignOfProduct(a, b, c.Value());
  }
}
