/** Whole operations on the numbers 12 and -12.5, and on texts. */
module Instances {
  import opened Decimal
  import opened Magnitudes
  import opened Variables
  import opened Packed
  import opened Arithmetic
  import opened Laws
  import opened Rounding
  import opened FloorCeil
  import opened Printing
  import opened Literals
  import opened Grammar
  import opened InputOutput

  const TWELVE := Numeric(1, 0, Pos, 0, [DigitPair(1, 2)])
  const MINUS_12_5 := Numeric(1, 1, Neg, 1, [DigitPair(1, 2), DigitPair(5, 0)])

  // ---------- stored numbers ----------

  lemma Spells12(d: seq<digit>)
    requires |d| >= 2 && d[0] == 1 && d[1] == 2
    ensures Prefix(d, 2) == 12
  {
    assert Prefix(d, 1) == 10 * Prefix(d, 0) + 1;
  }

  lemma Spells125(d: seq<digit>)
    requires |d| >= 3 && d[0] == 1 && d[1] == 2 && d[2] == 5
    ensures Prefix(d, 3) == 125
  {
    Spells12(d);
  }

  /** The bytes of the two numbers. */
  lemma StoredBytes()
    ensures TWELVE.Canonical() && TWELVE.Value() == 12 && Encode(12, 0, 0) == TWELVE
    ensures MINUS_12_5.Canonical() && MINUS_12_5.Value() == -125 && Encode(-125, 1, 1) == MINUS_12_5
  {
    assert Unpack(TWELVE.data) == [1, 2] && Unpack(MINUS_12_5.data) == [1, 2, 5, 0];
    Spells12([1, 2]);
    Spells125([1, 2, 5, 0]);
    EncodeDecode(TWELVE);
    EncodeDecode(MINUS_12_5);
  }

  lemma AtOneDecimal(p: Numeric, q: Numeric)
    requires p == TWELVE && q == MINUS_12_5
    ensures p.Canonical() && q.Canonical() && p.Signed(1) == 120 && q.Signed(1) == -125
  {
    StoredBytes();
    SignedAt(p, 1);
    assert Pow10(1) == 10;
  }

  lemma SumUnits(p: Numeric, q: Numeric)
    requires p == TWELVE && q == MINUS_12_5
    ensures Sum(p, q) == Encode(-5, 1, 1) && Difference(p, q) == Encode(245, 1, 1)
  {
    AtOneDecimal(p, q);
    SumEncodes(p, q, -5, 1, 1);
    DifferenceEncodes(p, q, 245, 1, 1);
  }

  lemma BytesOfSum()
    ensures Encode(-5, 1, 1) == Numeric(-1, 1, Neg, 1, [DigitPair(5, 0)])
  {}

  lemma BytesOfDifference()
    ensures Encode(245, 1, 1) == Numeric(1, 1, Pos, 1, [DigitPair(2, 4), DigitPair(5, 0)])
  {}

  lemma SumOfBoth(p: Numeric, q: Numeric)
    requires p == TWELVE && q == MINUS_12_5
    ensures Sum(p, q) == Numeric(-1, 1, Neg, 1, [DigitPair(5, 0)])
  {
    BytesOfSum();
    SumUnits(p, q);
  }

  lemma DifferenceOfBoth(p: Numeric, q: Numeric)
    requires p == TWELVE && q == MINUS_12_5
    ensures Difference(p, q) == Numeric(1, 1, Pos, 1, [DigitPair(2, 4), DigitPair(5, 0)])
  {
    BytesOfDifference();
    SumUnits(p, q);
  }

  lemma ProductOfBoth(p: Numeric, q: Numeric)
    requires p == TWELVE && q == MINUS_12_5
    ensures Product(p, q) == Numeric(2, 1, Neg, 1, [DigitPair(1, 5)])
    ensures Negation(q) == Numeric(1, 1, Pos, 1, [DigitPair(1, 2), DigitPair(5, 0)])
  {
    StoredBytes();
  }

  lemma WholeNumbers(p: Numeric)
    requires p == MINUS_12_5
    ensures Ceil(p) == Numeric(1, 0, Neg, 0, [DigitPair(1, 2)]) && Floor(p) == Numeric(1, 0, Neg, 0, [DigitPair(1, 3)])
  {
    StoredBytes();
  }

  /** A half goes away from zero; cutting off goes toward it. */
  lemma RoundedHalf(p: Numeric)
    requires p == MINUS_12_5
    ensures Rounded(p, 0) == Encode(-13, 0, 0) && Truncated(p, 0) == Encode(-12, 0, 0)
  {
    StoredBytes();
    assert Pow10(1) == 10;
    RoundedAs(p, -125, 0, 0, -13, 0, -13);
    TruncatedAs(p, -125, 0, 0, -12, 0, -12);
  }

  // ---------- texts ----------

  lemma PrintedTwelve(p: Numeric)
    requires p == TWELVE
    ensures Output(p) == "12"
  {
    StoredBytes();
    Spells12([1, 2]);
    FixedUnique([1, 2], 12, 0);
    OutputIs(p, 12, 12);
    assert Layout(false, [1, 2], 0) == "12";
  }

  lemma PrintedMinus12Point5(p: Numeric)
    requires p == MINUS_12_5
    ensures Output(p) == "-12.5"
  {
    StoredBytes();
    Spells125([1, 2, 5]);
    FixedUnique([1, 2, 5], 125, 1);
    OutputIs(p, 125, 125);
    assert Layout(true, [1, 2, 5], 1) == "-12.5";
  }

  /** At a display scale left of the point: 14 to the tens, and to the hundreds, where it vanishes. */
  lemma PrintedTens()
    ensures Layout(false, Spelled(1, 1, -1), 0) == "10" && Layout(false, Spelled(0, 1, -2), 0) == "00"
  {}

  /** The digits and the power of ten of a literal. */
  ghost predicate Means(l: Literal, n: int, v: int, decimals: nat)
  {
    var d := l.whole + l.frac;
    && l.WellFormed() && |l.frac| == decimals
        && n == (if l.sign == "-" then -(Prefix(d, |d|) as int) else Prefix(d, |d|))
    && v == if l.power.NoPower? then 0
            else if l.power.sign == "-" then -(Prefix(l.power.digits, |l.power.digits|) as int)
            else Prefix(l.power.digits, |l.power.digits|)
  }

  lemma MeansRead(l: Literal, n: int, v: int, decimals: nat, e: int, u: nat, x: int, precision: int, h: int)
    requires Means(l, n, v, decimals) && e == decimals - v && u == Max(0, e) && x == n * Pow10(u - e)
    requires h == HalfAway(n, e) && (precision > 0 ==> h != 0)
    ensures precision == 0 ==> Input(l.Write(), 0, 0) == (Encode(x, u, u), NoError)
    ensures precision > 0 ==>
              Input(l.Write(), precision, 0) ==
              if Abs(h) >= Pow10(precision) then (Numeric(0, 0, NaN, 0, []), NumericOverflow)
              else (Encode(h, 0, 0), NoError)
  {
    InputOfLiteral(l, n, v, e, u, x, precision, 0, h);
  }

  lemma WritesTwelve(l: Literal)
    requires l == Literal("", "", [1, 2], false, [], NoPower, "")
    ensures l.WellFormed() && l.Write() == "12"
  {
    Spells12([1, 2]);
  }

  lemma TwelveRead(l: Literal)
    requires l == Literal("", "", [1, 2], false, [], NoPower, "")
    ensures Input(l.Write(), 0, 0) == (Encode(12, 0, 0), NoError)
  {
    WritesTwelve(l);
    assert l.whole + l.frac == [1, 2];
    Spells12([1, 2]);
    InputOfLiteral(l, 12, 0, 0, 0, 12, 0, 0, HalfAway(12, 0));
  }

  lemma ReadTwelve()
    ensures Input("12", 0, 0) == (TWELVE, NoError)
  {
    var l := Literal("", "", [1, 2], false, [], NoPower, "");
    WritesTwelve(l);
    TwelveRead(l);
    StoredBytes();
  }

  lemma Minus12Point5Means(l: Literal)
    requires l == Literal(" ", "-", [1], true, [2, 5], Power('E', "", "+", [1]), " ")
    ensures Means(l, -125, 1, 2)
  {
    WritesMinus12Point5(l);
    assert l.whole + l.frac == [1, 2, 5];
    Spells125([1, 2, 5]);
    Spells1([1]);
  }

  lemma Minus12Point5Half()
    ensures HalfAway(-125, 1) == -13 && 10 == Pow10(1) <= 13 < Pow10(2) && -125 == -125 * Pow10(0)
  {
    assert Pow10(2) == 10 * Pow10(1);
  }

  lemma Minus12Point5Read(l: Literal, precision: int)
    requires l == Literal(" ", "-", [1], true, [2, 5], Power('E', "", "+", [1]), " ") && 0 <= precision <= 2
    ensures precision == 0 ==> Input(l.Write(), 0, 0) == (Encode(-125, 1, 1), NoError)
    ensures precision == 1 ==> Input(l.Write(), 1, 0) == (Numeric(0, 0, NaN, 0, []), NumericOverflow)
    ensures precision == 2 ==> Input(l.Write(), 2, 0) == (Encode(-13, 0, 0), NoError)
  {
    Minus12Point5Means(l);
    Minus12Point5Half();
    MeansRead(l, -125, 1, 2, 1, 1, -125, precision, -13);
  }

  /** Every part of the grammar, read without a precision and with one. */
  lemma ReadMinus12Point5(l: Literal)
    requires l == Literal(" ", "-", [1], true, [2, 5], Power('E', "", "+", [1]), " ")
    ensures Input(" -1.25E+1 ", 0, 0) == (MINUS_12_5, NoError)
    ensures Input(" -1.25E+1 ", 1, 0) == (Numeric(0, 0, NaN, 0, []), NumericOverflow)
    ensures Input(" -1.25E+1 ", 2, 0) == (Encode(-13, 0, 0), NoError)
  {
    WritesMinus12Point5(l);
    Minus12Point5Read(l, 0);
    Minus12Point5Read(l, 1);
    Minus12Point5Read(l, 2);
    StoredBytes();
  }

  lemma Spells1(d: seq<digit>)
    requires |d| >= 1 && d[0] == 1
    ensures Prefix(d, 1) == 1
  {
    assert Prefix(d, 1) == 10 * Prefix(d, 0) + 1;
  }

  lemma WritesMinus12Point5(l: Literal)
    requires l == Literal(" ", "-", [1], true, [2, 5], Power('E', "", "+", [1]), " ")
    ensures l.WellFormed() && l.Write() == " -1.25E+1 "
  {
    Spells1([1]);
    assert Chars([1]) == "1" && Chars([2, 5]) == "25" && l.power.Write() == "E+1";
  }

  lemma Spells1000(d: seq<digit>)
    requires d == [1, 0, 0, 0]
    ensures Prefix(d, 4) == 1000
  {
    Spells1(d);
    assert Prefix(d, 2) == 10 * Prefix(d, 1) && Prefix(d, 3) == 10 * Prefix(d, 2);
  }

  lemma LargestMeans(l: Literal)
    requires l == Literal("", "", [1], false, [], Power('e', " ", "", [1, 0, 0, 0]), "")
    ensures Means(l, 1, 1000, 0)
  {
    assert l.whole + l.frac == [1];
    Spells1([1]);
    Spells1000([1, 0, 0, 0]);
  }

  lemma WritesLargest(l: Literal)
    requires l == Literal("", "", [1], false, [], Power('e', " ", "", [1, 0, 0, 0]), "")
    ensures l.Write() == "1e 1000"
  {
    assert Chars([1]) == "1" && Chars([1, 0, 0, 0]) == "1000" && l.power.Write() == "e 1000";
  }

  lemma LargestRead(l: Literal, k: nat, e: int, x: nat)
    requires Means(l, 1, k, 0) && e == -(k as int) && x == Pow10(k)
    ensures Input(l.Write(), 0, 0) == (Encode(x, 0, 0), NoError)
  {
    MeansRead(l, 1, k, 0, e, 0, x, 0, HalfAway(1, e));
  }

  /** A power of ten up to 1000 is read, also after a space. */
  lemma LargestPower(l: Literal, k: nat, x: nat)
    requires l == Literal("", "", [1], false, [], Power('e', " ", "", [1, 0, 0, 0]), "") && k == 1000 && x == Pow10(k)
    ensures l.Write() == "1e 1000" && Input(l.Write(), 0, 0) == (Encode(x, 0, 0), NoError)
  {
    WritesLargest(l);
    LargestMeans(l);
    LargestRead(l, k, -(k as int), x);
  }

  lemma TooLarge(s: string)
    requires s == "1e1001"
    ensures Read(s).Malformed?
  {
    RunIs(s, 0, 0, Space);
    RunIs(s, 0, 1, Digit);
    SplitIs(s, Parts(0, 0, 1, 1, 1));
    Spells1001([1, 0, 0, 1]);
    assert s[2..] == "" + ("" + (Chars([1, 0, 0, 1]) + ""));
    StrtolWritten(s, 2, "", "", [1, 0, 0, 1], "", 6, 1001);
  }

  lemma Spells1001(d: seq<digit>)
    requires d == [1, 0, 0, 1]
    ensures Prefix(d, 4) == 1001
  {
    Spells1(d);
    assert Prefix(d, 2) == 10 * Prefix(d, 1) && Prefix(d, 3) == 10 * Prefix(d, 2);
  }

  lemma NoDigits(s: string)
    requires s in {"", "."}
    ensures Read(s).Malformed?
  {
    RunIs(s, 0, 0, Space);
    RunIs(s, 0, 0, Digit);
    if s != "" { RunIs(s, 1, 1, Digit); }
    SplitIs(s, Parts(0, 0, 0, |s|, |s|));
  }

  lemma SecondPoint(s: string)
    requires s == "1.2.3"
    ensures Read(s).Malformed?
  {
    RunIs(s, 0, 0, Space);
    RunIs(s, 0, 1, Digit);
    RunIs(s, 2, 3, Digit);
    RunIs(s, 3, 3, Space);
    SplitIs(s, Parts(0, 0, 1, 2, 3));
  }

  lemma SecondSign(s: string)
    requires s == "+-1"
    ensures Read(s).Malformed?
  {
    RunIs(s, 0, 0, Space);
    RunIs(s, 1, 1, Digit);
    SplitIs(s, Parts(0, 1, 1, 1, 1));
  }

  lemma SpaceWithin(s: string)
    requires s == "1 2"
    ensures Read(s).Malformed?
  {
    RunIs(s, 0, 0, Space);
    RunIs(s, 0, 1, Digit);
    RunIs(s, 1, 2, Space);
    SplitIs(s, Parts(0, 0, 1, 1, 1));
  }

  lemma NoPowerDigits(s: string)
    requires s == "1e"
    ensures Read(s).Malformed?
  {
    RunIs(s, 0, 0, Space);
    RunIs(s, 0, 1, Digit);
    RunIs(s, 2, 2, Space);
    RunIs(s, 2, 2, Digit);
    SplitIs(s, Parts(0, 0, 1, 1, 1));
  }

  /** Texts that are refused. */
  lemma Refused(s: string, precision: int, scale: int)
    requires s in {"", ".", "1.2.3", "+-1", "1 2", "1e", "1e1001"}
    ensures Input(s, precision, scale) == (Numeric(0, 0, NaN, 0, []), NumericFormat)
  {
    assert Read(s).Malformed? by {
      if s in {"", "."} {
        NoDigits(s);
      } else if s == "1.2.3" {
        SecondPoint(s);
      } else if s == "+-1" {
        SecondSign(s);
      } else if s == "1 2" {
        SpaceWithin(s);
      } else if s == "1e" {
        NoPowerDigits(s);
      } else {
        TooLarge(s);
      }
    }
  }
}
