/** get_str_from_var and numeric_out: the text of a number. */
module Printing {
  import opened Decimal
  import opened Magnitudes
  import opened Variables
  import opened Packed
  import opened Arithmetic
  import opened Rounding

  function Char(d: digit): char { (d + '0' as int) as char }

  function Chars(d: seq<digit>): string { seq(|d|, k requires 0 <= k < |d| => Char(d[k])) }

  /** Each digit is written as the character of this table, in its place. */
  lemma CharsAre(d: seq<digit>)
    ensures |Chars(d)| == |d| && forall k :: 0 <= k < |d| ==> Chars(d)[k] == "0123456789"[d[k]]
  {}

  /** The digits worth 10^hi down to 10^lo. */
  function Window(m: Mag, hi: int, lo: int): seq<digit>
    requires lo <= hi + 1
  {
    seq(hi - lo + 1, k requires 0 <= k < hi - lo + 1 => m.Digit(hi - k))
  }

  /** At least ds + 1 digits of n: leading zeros only where the point needs a digit before it. */
  function Fixed(n: nat, ds: nat): (f: seq<digit>)
    ensures |f| > ds
  {
    var d := DigitsOf(n);
    seq(Max(0, ds + 1 - |d|), _ => 0) + d
  }

  /** An optional dash, the digits, and a point before the last ds of them. */
  function Layout(neg: bool, f: seq<digit>, ds: nat): string
    requires ds < |f|
  {
    (if neg then "-" else "") + Chars(f[..|f| - ds]) + if ds > 0 then "." + Chars(f[|f| - ds..]) else ""
  }

  function Output(p: Numeric): string
  {
    if IsNaN(p) then "NaN"
    else Layout(p.sign == Neg, Fixed(HalfUp(Abs(p.Value()), p.rscale - p.dscale), p.dscale), p.dscale)
  }

  /** How many of the stored digits stand left of the place 10^i. */
  function Place(m: Mag, i: int): nat { Max(0, Min(|m.digits|, m.weight - i)) }

  lemma DigitPlace(v: NumericVar, m: Mag, i: int, d: nat)
    requires v.Valid() && v.buf != null && m == v.Magnitude() && d == Place(m, i)
    ensures i <= v.weight && d < v.ndigits ==> m.Digit(i) == v.buf[v.start + d] && Place(m, i - 1) == d + 1
    ensures !(i <= v.weight && d < v.ndigits) ==> m.Digit(i) == 0 && Place(m, i - 1) == d
  {}

  /** One place: the next stored digit, or a zero outside the stored ones. */
  method EmitDigit(str: array<char>, cp: nat, v: NumericVar, i: int, d0: nat, ghost m: Mag) returns (d: nat)
    requires cp < str.Length && v.Valid() && v.buf != null && m == v.Magnitude() && d0 == Place(m, i)
    modifies str
    ensures d == Place(m, i - 1) && str[..cp + 1] == old(str[..cp]) + [Char(m.Digit(i))]
  {
    DigitPlace(v, m, i, d0);
    d := d0;
    if i <= v.weight && d < v.ndigits {
      str[cp] := Char(v.buf[v.start + d]);
      d := d + 1;
    } else {
      str[cp] := '0';
    }
  }

  /** The digit loops of get_str_from_var, for the places i down to lo. */
  method EmitDigits(str: array<char>, cp0: nat, v: NumericVar, i0: int, lo: int, d0: nat, ghost m: Mag)
    returns (cp: nat, d: nat)
    requires lo <= i0 + 1 && cp0 + (i0 - lo + 1) <= str.Length
    requires v.Valid() && v.buf != null && m == v.Magnitude() && d0 == Place(m, i0)
    modifies str
    ensures cp == cp0 + (i0 - lo + 1) && d == Place(m, lo - 1)
    ensures str[..cp] == old(str[..cp0]) + Chars(Window(m, i0, lo))
  {
    cp, d := cp0, d0;
    var i := i0;
    ghost var t, head := Chars(Window(m, i0, lo)), str[..cp0];
    while i >= lo
      invariant lo - 1 <= i <= i0 && cp == cp0 + (i0 - i) && d == Place(m, i)
      invariant str[..cp] == head + t[..i0 - i]
    {
      d := EmitDigit(str, cp, v, i, d, m);
      cp := cp + 1;
      i := i - 1;
    }
  }

  /** What get_str_from_var prints of a magnitude. */
  function Printed(neg: bool, m: Mag, dscale: int): string
  {
    (if neg then "-" else "") + Chars(Window(m, Max(m.weight, 0), 0))
    + if dscale > 0 then "." + Chars(Window(m, -1, -dscale)) else ""
  }

  method PutChar(str: array<char>, cp: nat, c: char)
    requires cp < str.Length
    modifies str
    ensures str[cp] == c && str[..cp] == old(str[..cp]) && str[..cp + 1] == old(str[..cp]) + [c]
  {
    str[cp] := c;
  }

  lemma PointJoins(x: string, y: string)
    ensures x + ['.'] + y == x + ("." + y)
  {}

  /** The text and its terminator fit the space allocated. */
  method PrintDigits(v: NumericVar, dscale: int, ghost m: Mag) returns (text: string)
    requires v.Valid() && v.buf != null && m == v.Magnitude()
    ensures text == Printed(v.sign == Neg, m, dscale)
  {
    var str := new char[Max(0, dscale) + Max(0, v.weight) + 4];
    var cp, d := 0, 0;
    if v.sign == Neg {
      PutChar(str, cp, '-');
      cp := cp + 1;
    }
    assert str[..cp] == if v.sign == Neg then "-" else "";
    cp, d := EmitDigits(str, cp, v, Max(v.weight, 0), 0, d, m);
    ghost var whole := str[..cp];
    if dscale > 0 {
      PutChar(str, cp, '.');
      cp := cp + 1;
      cp, d := EmitDigits(str, cp, v, -1, -dscale, d, m);
      PointJoins(whole, Chars(Window(m, -1, -dscale)));
    }
    assert str[..cp] == whole + if dscale > 0 then "." + Chars(Window(m, -1, -dscale)) else "";
    PutChar(str, cp, '\0');
    text := str[..cp];
  }

  /** n units of 10^-dscale in units of the last place printed, which is never left of the point. */
  function Shown(n: nat, dscale: int): nat { if dscale < 0 then n * Pow10(-dscale) else n }

  /** The digits printed of n units of 10^-dscale.  A number that rounds to nothing keeps its whole places, as zeros. */
  function Spelled(n: nat, weight: int, dscale: int): (f: seq<digit>)
    ensures |f| > Max(0, dscale)
  {
    if n == 0 && weight > 0 then seq(weight + 1 + Max(0, dscale), _ => 0) else Fixed(Shown(n, dscale), Max(0, dscale))
  }

  /** get_str_from_var: the variable is rounded in place to r, then printed.  Without leading zeros that is
      the number written out. */
  method GetStrFromVar(v: NumericVar, dscale: int, ghost m: Mag, ghost n: nat) returns (text: string, ghost r: Mag)
    requires v.Spare() && m == v.Magnitude() && n == m.Round(dscale)
    modifies v, v.buf
    ensures r.Is(n, dscale) && text == Printed(old(v.sign) == Neg, r, dscale)
    ensures Leads(m) ==> text == Layout(old(v.sign) == Neg, Spelled(n, m.weight, dscale), Max(0, dscale))
  {
    r := RoundTo(v, dscale, m, n);
    if Leads(m) {
      LeadShows(r, n, dscale);
      PrintedIs(v.sign == Neg, r, n, dscale);
    }
    text := PrintDigits(v, dscale, r);
  }

  // ---------- the digits printed are those of the rounded number ----------

  /** Enough digits, no leading zero beyond the one before the point: only one string spells n. */
  lemma FixedUnique(f: seq<digit>, n: nat, ds: nat)
    requires |f| > ds && Prefix(f, |f|) == n && (|f| > ds + 1 ==> f[0] != 0)
    ensures f == Fixed(n, ds)
  {
    FixedIs(n, ds);
    OneSpelling(f, Fixed(n, ds), n, ds);
  }

  lemma OneSpelling(f: seq<digit>, e: seq<digit>, n: nat, ds: nat)
    requires |f| > ds && Prefix(f, |f|) == n && (|f| > ds + 1 ==> f[0] != 0)
    requires |e| > ds && Prefix(e, |e|) == n && (|e| > ds + 1 ==> e[0] != 0)
    ensures f == e
  {
    FixedLength(f, n, ds);
    FixedLength(e, n, ds);
    SameLength(n, |f|, |e|, ds + 1);
    PrefixInjective(f, e, |f|);
    forall k | 0 <= k < |f| ensures f[k] == e[k] {
      assert DigitAt(f, k) == DigitAt(e, k);
    }
  }

  lemma SameLength(n: nat, a: nat, b: nat, k: nat)
    requires k > 0 && (n < Pow10(k) ==> a == b == k)
    requires n >= Pow10(k) ==> a > k && b > k && Pow10(a - 1) <= n < Pow10(a) && Pow10(b - 1) <= n < Pow10(b)
    ensures a == b
  {
    if n >= Pow10(k) { SameSize(n, a - 1, b - 1); }
  }

  lemma FixedIs(n: nat, ds: nat)
    ensures var e := Fixed(n, ds); Prefix(e, |e|) == n && (|e| > ds + 1 ==> e[0] != 0)
  {
    var d, e := DigitsOf(n), Fixed(n, ds);
    DigitsOfValue(n);
    PrefixShift(e, d, |e| - |d|, |d|);
  }

  lemma FixedLength(f: seq<digit>, n: nat, ds: nat)
    requires |f| > ds && Prefix(f, |f|) == n && (|f| > ds + 1 ==> f[0] != 0)
    ensures n < Pow10(ds + 1) ==> |f| == ds + 1
    ensures n >= Pow10(ds + 1) ==> |f| > ds + 1 && Pow10(|f| - 1) <= n < Pow10(|f|)
  {
    PrefixBound(f, |f|);
    if |f| > ds + 1 {
      LeadBound(f, |f|);
      Pow10Mono(ds + 1, |f| - 1);
    }
  }

  /** The window of places printed is the rounded number written out. */
  lemma WindowIs(m: Mag, n: nat, ds: nat, w: int, lo: int)
    requires m.Is(n, ds) && w == Max(m.weight, 0) && lo + ds == 0
    ensures Prefix(Window(m, w, lo), w + ds + 1) == n
    ensures m.weight > 0 ==> Window(m, w, lo)[0] == DigitAt(m.digits, 0)
  {
    var f, k := Window(m, w, lo), w - m.weight;
    forall j | 0 <= j < m.weight + ds + 1 ensures DigitAt(f, j + k) == DigitAt(m.digits, j) {
      assert f[j + k] == m.Digit(w - (j + k));
    }
    forall j | 0 <= j < k ensures DigitAt(f, j) == 0 {
      if j < |f| { assert f[j] == m.Digit(w - j); }
    }
    PrefixShift(f, m.digits, k, m.weight + ds + 1);
  }

  lemma PrintedIs(neg: bool, m: Mag, n: nat, dscale: int)
    requires m.Is(n, dscale) && Leads(m)
    ensures Printed(neg, m, dscale) == Layout(neg, Spelled(n, m.weight, dscale), Max(0, dscale))
  {
    LeadShows(m, n, dscale);
    if n == 0 && m.weight > 0 {
      PrintedZeros(neg, m, dscale, Spelled(n, m.weight, dscale));
    } else {
      if dscale < 0 { IsUp(m, n, dscale, 0); }
      PrintedAt(neg, m, Shown(n, dscale), Max(0, dscale));
      assert dscale < 0 ==> Printed(neg, m, dscale) == Printed(neg, m, 0);
    }
  }

  lemma LeadShows(m: Mag, n: nat, s: int)
    requires m.Is(n, s) && Leads(m)
    ensures n == 0 <==> m.digits == []
  {
    if m.digits == [] { AllZero(m, s); } else { LeadSize(m, n, s); }
  }

  lemma NoDigits(m: Mag, hi: int, lo: int)
    requires m.digits == [] && lo <= hi + 1
    ensures forall j :: 0 <= j < hi - lo + 1 ==> Window(m, hi, lo)[j] == 0
  {
    forall j | 0 <= j < hi - lo + 1 ensures Window(m, hi, lo)[j] == 0 {
      assert Window(m, hi, lo)[j] == m.Digit(hi - j);
    }
  }

  lemma PrintedZeros(neg: bool, m: Mag, dscale: int, f: seq<digit>)
    requires m.digits == [] && m.weight > 0 && f == seq(m.weight + 1 + Max(0, dscale), _ => 0)
    ensures Printed(neg, m, dscale) == Layout(neg, f, Max(0, dscale))
  {
    var k := Max(0, dscale);
    NoDigits(m, m.weight, 0);
    NoDigits(m, -1, -k);
    assert f[..|f| - k] == Window(m, m.weight, 0) && f[|f| - k..] == Window(m, -1, -k);
  }

  lemma PrintedAt(neg: bool, m: Mag, n: nat, ds: nat)
    requires m.Is(n, ds) && Leads(m) && (m.digits == [] ==> m.weight <= 0)
    ensures Printed(neg, m, ds) == Layout(neg, Fixed(n, ds), ds)
  {
    var w := Max(m.weight, 0);
    var f := Window(m, w, -(ds as int));
    WindowIs(m, n, ds, w, -(ds as int));
    FixedUnique(f, n, ds);
    WindowParts(m, w, ds, f);
  }

  lemma WindowParts(m: Mag, w: nat, ds: nat, f: seq<digit>)
    requires f == Window(m, w, -(ds as int))
    ensures |f| == w + ds + 1 && f[..|f| - ds] == Window(m, w, 0) && f[|f| - ds..] == Window(m, -1, -(ds as int))
  {}

  lemma RoundedUnits(p: Numeric, a: nat, n: nat)
    requires p.Canonical() && a == Abs(p.Value()) && n == p.Magnitude().Round(p.dscale)
    ensures n == HalfUp(a, p.rscale - p.dscale)
  {
    RoundIsHalfUp(p.Magnitude(), a, p.rscale, p.dscale);
  }

  lemma OutputIs(p: Numeric, a: nat, n: nat)
    requires p.sign != NaN && a == Abs(p.Value()) && n == HalfUp(a, p.rscale - p.dscale)
    ensures Output(p) == Layout(p.sign == Neg, Fixed(n, p.dscale), p.dscale)
  {}

  lemma OutputOf(p: Numeric, n: nat)
    requires p.Canonical() && n == p.Magnitude().Round(p.dscale)
    ensures Output(p) == Layout(p.sign == Neg, Fixed(n, p.dscale), p.dscale)
  {
    RoundedUnits(p, Abs(p.Value()), n);
    OutputIs(p, Abs(p.Value()), n);
  }

  /** The digits of the text are those of the value rounded half up to the display scale. */
  method NumericOut(num: Numeric) returns (text: string)
    requires Stored(num)
    ensures text == Output(num)
    ensures IsNaN(num) ==> text == "NaN"
  {
    if IsNaN(num) { return "NaN"; }
    OutputOf(num, num.Magnitude().Round(num.dscale));
    LeadingDigit(num);
    text := PrintNumber(num, num.Magnitude(), num.Magnitude().Round(num.dscale));
  }

  /** With no places rounded off left of the point, a number of whole digits does not vanish. */
  lemma RoundedShows(m: Mag, dscale: nat, n: nat)
    requires Leads(m) && (m.digits == [] ==> m.weight <= 0) && n == m.Round(dscale)
    ensures Spelled(n, m.weight, dscale) == Fixed(n, dscale)
  {
    if m.digits != [] && m.weight > 0 { LeadBound(m.digits, m.weight + dscale + 1); }
  }

  method PrintNumber(num: Numeric, ghost m: Mag, ghost n: nat) returns (text: string)
    requires m == num.Magnitude() && Leads(m) && (m.digits == [] ==> m.weight <= 0) && n == m.Round(num.dscale)
    ensures text == Layout(num.sign == Neg, Fixed(n, num.dscale), num.dscale)
  {
    RoundedShows(m, num.dscale, n);
    var x := Unpacked(num);
    ghost var r;
    text, r := GetStrFromVar(x, x.dscale, m, n);
  }

  lemma LayoutOpens(neg: bool, f: seq<digit>, ds: nat)
    requires ds < |f|
    ensures Layout(neg, f, ds) != "" && (Layout(neg, f, ds)[0] == '-' <==> neg)
  {
    assert !neg ==> Layout(neg, f, ds)[0] == Char(f[0]);
  }

  lemma RoundsToNothing(n: nat, k: int)
    ensures HalfUp(n, k) == 0 <==> n == 0 || (k > 0 && 2 * n < Pow10(k))
  {
    if k > 0 {
      RoundDivBounds(n, Pow10(k));
      if HalfUp(n, k) > 0 { MulMono(1, HalfUp(n, k), Pow10(k)); }
    } else if n > 0 {
      MulMono(1, n, Pow10(-k));
    }
  }

  /** The text has a dash exactly for the negative numbers; minus zero is printed for those below half of the last
      place. */
  lemma DashIff(p: Numeric, x: int, k: int)
    requires p.Canonical() && x == p.Value() && k == p.rscale - p.dscale
    ensures Output(p) != "" && (Output(p)[0] == '-' <==> x < 0)
    ensures HalfUp(Abs(x), k) == 0 <==> x == 0 || (k > 0 && 2 * Abs(x) < Pow10(k))
  {
    TrimmedCanon(p);
    var n := HalfUp(Abs(x), k);
    OutputIs(p, Abs(x), n);
    LayoutOpens(p.sign == Neg, Fixed(n, p.dscale), p.dscale);
    RoundsToNothing(Abs(x), k);
  }
}
