/** numeric_in, and what it makes of the text numeric_out prints. */
module InputOutput {
  import opened Decimal
  import opened Magnitudes
  import opened Variables
  import opened AddSub
  import opened Packed
  import opened Quotients
  import opened Rounding
  import opened Printing
  import opened Literals
  import opened Grammar

  /** The number a text stands for, in units of 10^-Max(0, scale). */
  function Units(r: Reading): int
    requires r.Reading?
  {
    WithSign(Prefix(r.digits, |r.digits|) * Pow10(Max(0, r.scale) - r.scale), r.neg)
  }

  /** The number a text stands for, rounded half away from zero to a scale. */
  function UnitsAt(r: Reading, scale: int): (n: int)
    requires r.Reading?
    ensures Abs(n) == HalfUp(Prefix(r.digits, |r.digits|), r.scale - scale)
  {
    WithSign(HalfUp(Prefix(r.digits, |r.digits|), r.scale - scale), r.neg)
  }

  function Input(s: string, precision: int, scale: int): (Numeric, DecimalException)
  {
    var r := Read(s);
    if s == "NaN" then (NUMERIC_NAN, NoError)
    else if r.Malformed? then (NUMERIC_NAN, NumericFormat)
    else if precision == 0 then (Encode(Units(r), Max(0, r.scale), Max(0, r.scale)), NoError)
    else if Overflows(Abs(UnitsAt(r, scale)), precision) then (NUMERIC_NAN, NumericOverflow)
    else (Encode(UnitsAt(r, scale), scale, scale), NoError)
  }

  lemma InputPlain(s: string, scale: int, r: Reading, u: nat, n: int)
    requires s != "NaN" && r == Read(s) && r.Reading? && u == Max(0, r.scale) && n == Units(r)
    ensures Input(s, 0, scale) == (Encode(n, u, u), NoError)
  {}

  lemma InputFitted(s: string, precision: int, scale: int, r: Reading, n: int)
    requires s != "NaN" && r == Read(s) && r.Reading? && precision != 0 && n == UnitsAt(r, scale)
    ensures Input(s, precision, scale) ==
            if Overflows(Abs(n), precision) then (NUMERIC_NAN, NumericOverflow) else (Encode(n, scale, scale), NoError)
  {}

  method NumericIn(s: string, precision: int, scale: int) returns (res: Numeric, ex: DecimalException)
    ensures (res, ex) == Input(s, precision, scale)
    ensures s == "NaN" ==> res == Numeric(0, 0, NaN, 0, []) && ex == NoError
    ensures s != "NaN" && (forall l: Literal :: l.Write() == s ==> !l.WellFormed()) ==>
              res == Numeric(0, 0, NaN, 0, []) && ex == NumericFormat
  {
    if s == "NaN" { return NUMERIC_NAN, NoError; }
    AcceptedIff(s);
    var value := new NumericVar();
    ex := SetVarFromStr(s, value);
    ghost var r := Read(s);
    if ex != NoError {
      res := NUMERIC_NAN;
    } else if precision != 0 {
      InputFitted(s, precision, scale, r, UnitsAt(r, scale));
      res, ex := StoreFitted(value, precision, scale, r, UnitsAt(r, scale));
    } else {
      InputPlain(s, scale, r, Max(0, r.scale), Units(r));
      res := StoreParsed(value, r, Units(r), Max(0, r.scale));
    }
  }

  method StoreParsed(value: NumericVar, ghost r: Reading, ghost n: int, ghost u: int) returns (res: Numeric)
    requires r.Reading? && Parsed(value, r) && n == Units(r) && u == Max(0, r.scale)
    ensures res == Encode(n, u, u)
  {
    IsUp(value.Magnitude(), Prefix(r.digits, |r.digits|), r.scale, u);
    res := MakeResult(value);
  }

  method StoreFitted(value: NumericVar, precision: int, scale: int, ghost r: Reading, ghost n: int)
    returns (res: Numeric, ex: DecimalException)
    requires r.Reading? && Parsed(value, r) && n == UnitsAt(r, scale)
    modifies value, value.buf
    ensures Overflows(Abs(n), precision) ==> res == NUMERIC_NAN && ex == NumericOverflow
    ensures !Overflows(Abs(n), precision) ==> res == Encode(n, scale, scale) && ex == NoError
  {
    RoundIsHalfUp(value.Magnitude(), Prefix(r.digits, |r.digits|), r.scale, scale);
    res, ex := StoreRounded(value, precision, scale, value.Magnitude(), Abs(n));
  }

  method StoreRounded(value: NumericVar, precision: int, scale: int, ghost m: Mag, ghost x: nat)
    returns (res: Numeric, ex: DecimalException)
    requires value.Spare() && value.sign != NaN && m == value.Magnitude() && x == m.Round(scale)
    modifies value, value.buf
    ensures Overflows(x, precision) ==> res == NUMERIC_NAN && ex == NumericOverflow
    ensures !Overflows(x, precision) ==>
              res == Encode(WithSign(x, old(value.sign) == Neg), scale, scale) && ex == NoError
  {
    ex := ApplyTypmod(value, precision, scale, m, x);
    res := MakeResult(value);
  }

  // ---------- the number a literal stands for ----------

  lemma LiteralNotNaN(l: Literal)
    requires l.WellFormed()
    ensures l.Write() != "NaN"
  {
    var t := Chars(l.whole) + (l.Fraction() + (l.power.Write() + l.trail));
    if l.lead != [] {
      assert l.Write()[0] == l.lead[0] && In(Space, l.lead[0]);
    } else {
      NumberFirst(l, t);
      assert l.Write() == l.sign + t;
      FirstIsNumeric(l, t);
    }
  }

  lemma FirstIsNumeric(l: Literal, t: string)
    requires l.WellFormed() && t == Chars(l.whole) + (l.Fraction() + (l.power.Write() + l.trail)) && t != []
    ensures (l.sign + t)[0] != 'N'
  {
    if l.whole != [] { FirstOf(l.whole, l.Fraction() + (l.power.Write() + l.trail)); } else { assert t[0] == '.'; }
  }

  lemma SignedUnits(r: Reading, n: int, scale: int)
    requires r.Reading? && n == if r.neg then -(Prefix(r.digits, |r.digits|) as int) else Prefix(r.digits, |r.digits|)
    ensures Units(r) == n * Pow10(Max(0, r.scale) - r.scale) && UnitsAt(r, scale) == HalfAway(n, r.scale - scale)
  {
    NegScaled(Prefix(r.digits, |r.digits|), Pow10(Max(0, r.scale) - r.scale));
    HalfUpZero(r.scale - scale);
  }

  lemma InputOfReading(s: string, r: Reading, n: int, e: int, u: nat, x: int, precision: int, scale: int, h: int)
    requires s != "NaN" && r == Read(s) && r.Reading? && r.scale == e && u == Max(0, e)
    requires n == if r.neg then -(Prefix(r.digits, |r.digits|) as int) else Prefix(r.digits, |r.digits|)
    requires x == n * Pow10(u - e) && h == HalfAway(n, e - scale)
    ensures precision == 0 ==> Input(s, 0, scale) == (Encode(x, u, u), NoError)
    ensures precision != 0 ==>
              Input(s, precision, scale) ==
              if h != 0 && (precision < 0 || Abs(h) >= Pow10(precision))
              then (Numeric(0, 0, NaN, 0, []), NumericOverflow) else (Encode(h, scale, scale), NoError)
  {
    assert Units(r) == x && UnitsAt(r, scale) == h by { SignedUnits(r, n, scale); }
    assert h != 0 && precision >= 0 && Abs(h) >= Pow10(precision) ==> Overflows(Abs(h), precision);
    if precision == 0 { InputPlain(s, scale, r, u, x); } else { InputFitted(s, precision, scale, r, h); }
  }

  /** The digits of a literal spell n / 10^e, e being the decimals less the power of ten; without a precision that is
      stored at its own scale, and else rounded half away from zero, unless that has more than precision digits. */
  lemma InputOfLiteral(l: Literal, n: int, v: int, e: int, u: nat, x: int, precision: int, scale: int, h: int)
    requires l.WellFormed() && e == |l.frac| - v && u == Max(0, e)
    requires var d := l.whole + l.frac; n == if l.sign == "-" then -(Prefix(d, |d|) as int) else Prefix(d, |d|)
    requires v == if l.power.NoPower? then 0
                  else if l.power.sign == "-" then -(Prefix(l.power.digits, |l.power.digits|) as int)
                  else Prefix(l.power.digits, |l.power.digits|)
    requires x == n * Pow10(u - e) && h == HalfAway(n, e - scale)
    ensures precision == 0 ==> Input(l.Write(), 0, scale) == (Encode(x, u, u), NoError)
    ensures precision != 0 ==>
              Input(l.Write(), precision, scale) ==
              if h != 0 && (precision < 0 || Abs(h) >= Pow10(precision))
              then (Numeric(0, 0, NaN, 0, []), NumericOverflow) else (Encode(h, scale, scale), NoError)
  {
    LiteralNotNaN(l);
    ReadWritten(l);
    assert l.Value().digits == l.whole + l.frac && l.Value().scale == e;
    InputOfReading(l.Write(), l.Value(), n, e, u, x, precision, scale, h);
  }

  // ---------- print, then parse ----------

  lemma LayoutReads(neg: bool, f: seq<digit>, ds: nat)
    requires ds < |f|
    ensures Read(Layout(neg, f, ds)) == Reading(neg, f, ds) && Layout(neg, f, ds) != "NaN"
  {
    var l := Literal("", if neg then "-" else "", f[..|f| - ds], ds > 0, f[|f| - ds..], NoPower, "");
    LayoutWrites(l, neg, f, ds);
    LiteralOfLayout(l, neg, f, ds);
    ReadWritten(l);
    FirstChar(neg, f, ds);
  }

  lemma LiteralOfLayout(l: Literal, neg: bool, f: seq<digit>, ds: nat)
    requires ds < |f| && l == Literal("", if neg then "-" else "", f[..|f| - ds], ds > 0, f[|f| - ds..], NoPower, "")
    ensures l.WellFormed() && l.Value() == Reading(neg, f, ds)
  {
    assert f == l.whole + l.frac;
  }

  lemma FirstChar(neg: bool, f: seq<digit>, ds: nat)
    requires ds < |f|
    ensures Layout(neg, f, ds) != "NaN"
  {
    assert Layout(neg, f, ds)[0] == if neg then '-' else Char(f[0]);
  }

  lemma LayoutWrites(l: Literal, neg: bool, f: seq<digit>, ds: nat)
    requires ds < |f| && l == Literal("", if neg then "-" else "", f[..|f| - ds], ds > 0, f[|f| - ds..], NoPower, "")
    ensures l.Write() == Layout(neg, f, ds)
  {
    var t: string := "";
    assert l.power.Write() + l.trail == t && l.Fraction() + t == l.Fraction();
    assert l.lead + (l.sign + (Chars(l.whole) + l.Fraction())) == l.sign + Chars(l.whole) + l.Fraction();
  }

  lemma InputOf(s: string, neg: bool, f: seq<digit>, ds: nat, x: nat, n: int)
    requires s != "NaN" && Read(s) == Reading(neg, f, ds) && x == Prefix(f, |f|) && n == WithSign(x, neg)
    ensures Input(s, 0, 0) == (Encode(n, ds, ds), NoError)
  {
    assert Units(Read(s)) == n by { assert x * Pow10(0) == x; }
    InputPlain(s, 0, Read(s), ds, n);
  }

  lemma PrintedUnits(p: Numeric, n: int, x: nat)
    requires p.Canonical() && n == HalfAway(p.Value(), p.rscale - p.dscale)
             && x == HalfUp(Abs(p.Value()), p.rscale - p.dscale)
    ensures n == WithSign(x, p.sign == Neg)
  {
    HalfUpZero(p.rscale - p.dscale);
  }

  /** Reading back what was printed gives the number rounded to its display scale, whatever that scale is. */
  lemma PrintThenParse(p: Numeric, s: string, n: int)
    requires p.Canonical() && s == Output(p) && n == HalfAway(p.Value(), p.rscale - p.dscale)
    ensures Input(s, 0, 0) == (Encode(n, p.dscale, p.dscale), NoError)
  {
    var a, neg := Abs(p.Value()), p.sign == Neg;
    var x := HalfUp(a, p.rscale - p.dscale);
    PrintedUnits(p, n, x);
    OutputIs(p, a, x);
    LayoutParses(s, neg, x, p.dscale, n);
  }

  lemma LayoutParses(s: string, neg: bool, x: nat, ds: nat, n: int)
    requires s == Layout(neg, Fixed(x, ds), ds) && n == WithSign(x, neg)
    ensures Input(s, 0, 0) == (Encode(n, ds, ds), NoError)
  {
    FixedIs(x, ds);
    LayoutReads(neg, Fixed(x, ds), ds);
    InputOf(s, neg, Fixed(x, ds), ds, x, n);
  }

  lemma RoundedAt(p: Numeric, scale: int, n: int)
    requires p.sign != NaN && 0 <= scale <= NUMERIC_MAX_DISPLAY_SCALE && n == HalfAway(p.Value(), p.rscale - scale)
    ensures Rounded(p, scale) == Encode(n, scale, scale)
  {
    assert Abs(n) * Pow10(0) == Abs(n);
  }

  /** Up to the display limit that is numeric_round to the display scale, byte for byte. */
  lemma PrintThenParseRounds(p: Numeric, s: string) returns (e: Numeric)
    requires p.Canonical() && p.dscale <= NUMERIC_MAX_DISPLAY_SCALE && s == Output(p)
    ensures Input(s, 0, 0) == (e, NoError)
    ensures e == Rounded(p, p.dscale)
  {
    var n := HalfAway(p.Value(), p.rscale - p.dscale);
    e := Encode(n, p.dscale, p.dscale);
    RoundedAt(p, p.dscale, n);
    PrintThenParse(p, s, n);
  }

  /** A number that displays all it holds survives printing and parsing unchanged, and so does NaN. */
  lemma PrintThenParseSame(p: Numeric, s: string)
    requires s == Output(p) && (p == NUMERIC_NAN || (p.Canonical() && p.rscale == p.dscale))
    ensures Input(s, 0, 0) == (p, NoError)
  {
    if p != NUMERIC_NAN {
      var n := p.Value();
      assert HalfAway(n, 0) == n by { assert Abs(n) * Pow10(0) == Abs(n); }
      PrintThenParse(p, s, n);
      EncodeDecode(p);
    }
  }

  // ---------- parsing into a column, and parsing first and fitting then ----------

  lemma HalfUpFiner(n: nat, t: int, u: int, scale: int)
    requires t <= u
    ensures HalfUp(n * Pow10(u - t), u - scale) == HalfUp(n, t - scale)
  {
    var m := Norm(n, t);
    NormIs(n, t);
    IsUp(m, n, t, u);
    RoundIsHalfUp(m, n, t, scale);
    RoundIsHalfUp(m, n * Pow10(u - t), u, scale);
  }

  lemma UnitsRounded(r: Reading, u: int, scale: int, x: int, n: int)
    requires r.Reading? && u == Max(0, r.scale) && x == Units(r) && n == UnitsAt(r, scale)
    ensures HalfAway(x, u - scale) == n
  {
    var d := Prefix(r.digits, |r.digits|);
    HalfUpFiner(d, r.scale, u, scale);
    HalfUpZero(u - scale);
  }

  /** Applying precision and scale while parsing is the same as applying them to the parsed number. */
  lemma ParseThenFit(s: string, precision: int, scale: int, r: Reading, u: nat, p: Numeric)
    requires s != "NaN" && r == Read(s) && r.Reading? && precision != 0 && u == Max(0, r.scale)
    requires p == Input(s, 0, 0).0 && InRange(Units(r), u, u)
    ensures Input(s, precision, scale) == Fitted(p, precision, scale)
  {
    var x, n := Units(r), UnitsAt(r, scale);
    assert p.sign != NaN && p.Value() == x && p.rscale == u by {
      InputPlain(s, 0, r, u, x);
      DecodeEncode(x, u, u);
    }
    UnitsRounded(r, u, scale, x, n);
    FittedAs(p, precision, scale, n);
    InputFitted(s, precision, scale, r, n);
  }
}
