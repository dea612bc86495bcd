/** The grammar of number texts, apart from any scanner, and that the scanner accepts exactly it. */
module Grammar {
  import opened Decimal
  import opened Quotients
  import opened Printing
  import opened Literals

  datatype Power = NoPower | Power(mark: char, gap: string, sign: string, digits: seq<digit>) {
    predicate WellFormed()
    {
      Power? ==> mark in {'e', 'E'} && AllSpaces(gap) && sign in {"", "+", "-"} && digits != []
                 && Prefix(digits, |digits|) <= 1000
    }

    function Value(): int { if NoPower? then 0 else WithSign(Prefix(digits, |digits|), sign == "-") }

    function Write(): string { if NoPower? then "" else [mark] + (gap + (sign + Chars(digits))) }
  }

  /** Spaces, a sign, digits with at most one point among them, a power of ten, spaces. */
  datatype Literal = Literal(lead: string, sign: string, whole: seq<digit>, point: bool, frac: seq<digit>, power: Power,
                             trail: string) {
    predicate WellFormed()
    {
      && AllSpaces(lead) && AllSpaces(trail) && sign in {"", "+", "-"} && power.WellFormed()
      && whole + frac != [] && (frac != [] ==> point)
    }

    function Write(): string { lead + (sign + (Chars(whole) + (Fraction() + (power.Write() + trail)))) }

    function Fraction(): string { if point then "." + Chars(frac) else "" }

    function Value(): Reading { Reading(sign == "-", whole + frac, |frac| - power.Value()) }
  }

  predicate AllSpaces(t: string) { forall k :: 0 <= k < |t| ==> In(Space, t[k]) }

  /** The text goes on with part from index i, and with rest after that. */
  lemma Passes(s: string, i: nat, part: string, rest: string, j: nat)
    requires i <= |s| && s[i..] == part + rest && j == i + |part|
    ensures j <= |s| && s[i..j] == part && s[j..] == rest && |s| - j == |rest|
    ensures rest != [] ==> s[j] == rest[0]
  {}

  lemma RunOver(s: string, i: nat, part: string, rest: string, j: nat, c: Class)
    requires i <= |s| && s[i..] == part + rest && j == i + |part|
    requires (forall k :: 0 <= k < |part| ==> In(c, part[k])) && (rest != [] ==> !In(c, rest[0]))
    ensures j <= |s| && Run(s, i, c) == j && s[i..j] == part && s[j..] == rest && |s| - j == |rest|
  {
    Passes(s, i, part, rest, j);
    assert forall k :: i <= k < j ==> s[k] == part[k - i];
    RunIs(s, i, j, c);
  }

  lemma CharsAreDigits(d: seq<digit>)
    ensures forall k :: 0 <= k < |d| ==> In(Digit, Chars(d)[k])
    ensures Values(Chars(d)) == d
  {}

  lemma DigitsOver(s: string, i: nat, d: seq<digit>, rest: string, j: nat)
    requires i <= |s| && s[i..] == Chars(d) + rest && j == i + |d| && (rest != [] ==> !In(Digit, rest[0]))
    ensures j <= |s| && Run(s, i, Digit) == j && s[i..j] == Chars(d) && s[j..] == rest && |s| - j == |rest|
  {
    CharsAreDigits(d);
    RunOver(s, i, Chars(d), rest, j, Digit);
  }

  /** A sign, or none, before something that is not one. */
  lemma SignOver(s: string, i: nat, sign: string, rest: string, j: nat)
    requires i <= |s| && s[i..] == sign + rest && j == i + |sign| && sign in {"", "+", "-"}
    requires rest != [] && rest[0] !in {'+', '-'}
    ensures j <= |s| && s[j..] == rest && j == (if IsSign(s, i) then i + 1 else i) && (Is(s, i, '-') <==> sign == "-")
  {
    Passes(s, i, sign, rest, j);
    if sign != "" { assert s[i] == sign[0]; }
  }

  lemma FirstOf(d: seq<digit>, rest: string)
    requires d != []
    ensures In(Digit, (Chars(d) + rest)[0])
  {}

  lemma StrtolIs(s: string, i: nat, f: nat, g: nat, h: nat, d: seq<digit>, v: int)
    requires i <= |s| && f == Run(s, i, Space) && g == (if IsSign(s, f) then f + 1 else f) && h == Run(s, g, Digit)
    requires h == g + |d| && d != [] && Values(s[g..h]) == d
    requires v == WithSign(Prefix(d, |d|), Is(s, f, '-'))
    ensures Strtol(s, i) == (v, h)
  {}

  lemma StrtolWritten(s: string, i: nat, gap: string, sign: string, d: seq<digit>, rest: string, h: nat, v: int)
    requires i <= |s| && s[i..] == gap + (sign + (Chars(d) + rest)) && AllSpaces(gap) && sign in {"", "+", "-"}
             && d != []
    requires rest != [] ==> !In(Digit, rest[0])
    requires h + |rest| == |s| && v == WithSign(Prefix(d, |d|), sign == "-")
    ensures i < h && Strtol(s, i) == (v, h)
  {
    var f, g := i + |gap|, i + |gap| + |sign|;
    FirstOf(d, rest);
    RunOver(s, i, gap, sign + (Chars(d) + rest), f, Space);
    SignOver(s, f, sign, Chars(d) + rest, g);
    DigitsOver(s, g, d, rest, g + |d|);
    CharsAreDigits(d);
    StrtolIs(s, i, f, g, h, d, v);
  }

  lemma ExponentIs(s: string, e: nat, v: int, h: nat)
    requires Is(s, e, 'e') || Is(s, e, 'E')
    requires Strtol(s, e + 1) == (v, h) && h > e + 1 && -NUMERIC_MAX_PRECISION <= v <= NUMERIC_MAX_PRECISION
    ensures Exponent(s, e) == (v, true, h)
  {}

  lemma NoExponent(s: string, e: nat, trail: string)
    requires e <= |s| && s[e..] == trail && AllSpaces(trail)
    ensures Exponent(s, e) == (0, true, e) && e + |trail| == |s|
  {
    if e < |s| { assert s[e] == trail[0]; }
  }

  lemma PowerOpens(w: Power, trail: string)
    requires w.Power?
    ensures w.Write() + trail == [w.mark] + (w.gap + (w.sign + (Chars(w.digits) + trail)))
  {}

  /** The power of ten is read whole, and only the trailing spaces are left. */
  lemma ExponentWritten(s: string, e: nat, w: Power, trail: string, h: nat, v: int)
    requires e <= |s| && s[e..] == w.Write() + trail && w.WellFormed() && AllSpaces(trail)
    requires h + |trail| == |s| && v == w.Value()
    ensures Exponent(s, e) == (v, true, h)
  {
    if w.Power? {
      PowerOpens(w, trail);
      Passes(s, e, [w.mark], w.gap + (w.sign + (Chars(w.digits) + trail)), e + 1);
      StrtolWritten(s, e + 1, w.gap, w.sign, w.digits, trail, h, v);
      ExponentIs(s, e, v, h);
    } else {
      assert "" + trail == trail;
      NoExponent(s, e, trail);
    }
  }

  // ---------- what is written is read back ----------

  lemma NumberFirst(l: Literal, t: string)
    requires l.WellFormed() && t == Chars(l.whole) + (l.Fraction() + (l.power.Write() + l.trail))
    ensures t != [] && t[0] !in {'+', '-'} && !In(Space, t[0])
    ensures (l.sign + t)[0] == (if l.sign == "" then t else l.sign)[0] && !In(Space, (l.sign + t)[0])
  {
    if l.whole != [] { FirstOf(l.whole, l.Fraction() + (l.power.Write() + l.trail)); } else { assert t[0] == '.'; }
  }

  /** Where the parts of a written number lie. */
  ghost predicate Placed(l: Literal, p: Parts)
  {
    && p.sign == |l.lead| && p.whole == p.sign + |l.sign| && p.point == p.whole + |l.whole|
    && p.frac == (if l.point then p.point + 1 else p.point) && p.end == p.frac + |l.frac|
  }

  lemma HeadWritten(s: string, l: Literal, p: Parts)
    requires l.WellFormed() && s == l.Write() && Placed(l, p)
    ensures p.sign == Run(s, 0, Space) && p.whole == (if IsSign(s, p.sign) then p.sign + 1 else p.sign) <= |s|
    ensures s[p.whole..] == Chars(l.whole) + (l.Fraction() + (l.power.Write() + l.trail))
    ensures Is(s, p.sign, '-') <==> l.sign == "-"
  {
    var t := Chars(l.whole) + (l.Fraction() + (l.power.Write() + l.trail));
    NumberFirst(l, t);
    assert s[0..] == s;
    RunOver(s, 0, l.lead, l.sign + t, p.sign, Space);
    SignOver(s, p.sign, l.sign, t, p.whole);
  }

  lemma FractionWritten(s: string, i: nat, frac: seq<digit>, e: nat, rest: string)
    requires i <= |s| && e == i + 1 + |frac| && s[i..] == "." + Chars(frac) + rest
             && (rest != [] ==> !In(Digit, rest[0]))
    ensures Is(s, i, '.') && e <= |s| && e == Run(s, i + 1, Digit) && s[i + 1..e] == Chars(frac) && s[e..] == rest
  {
    assert "." + Chars(frac) + rest == "." + (Chars(frac) + rest);
    Passes(s, i, ".", Chars(frac) + rest, i + 1);
    DigitsOver(s, i + 1, frac, rest, e);
  }

  lemma PointWritten(s: string, i: nat, point: bool, frac: seq<digit>, f: nat, e: nat, rest: string, t: string)
    requires i <= |s| && s[i..] == t && t == (if point then "." + Chars(frac) else "") + rest && (frac != [] ==> point)
    requires f == (if point then i + 1 else i) && e == f + |frac|
             && (rest != [] ==> !In(Digit, rest[0]) && rest[0] != '.')
    ensures (Is(s, i, '.') <==> point) && f <= e <= |s| && e == (if point then Run(s, f, Digit) else i)
    ensures s[f..e] == Chars(frac) && s[e..] == rest
  {
    if point {
      FractionWritten(s, i, frac, e, rest);
    } else {
      assert "" + rest == rest;
    }
  }

  lemma AfterWhole(l: Literal, rest: string)
    requires l.WellFormed() && rest == l.power.Write() + l.trail
    ensures l.Fraction() + rest != [] ==> !In(Digit, (l.Fraction() + rest)[0])
    ensures rest != [] ==> !In(Digit, rest[0]) && rest[0] != '.'
  {
  }

  lemma MantissaWritten(s: string, p: Parts, whole: seq<digit>, point: bool, frac: seq<digit>, rest: string, t: string)
    requires p.whole <= |s| && p.point == p.whole + |whole| && (frac != [] ==> point)
    requires p.frac == (if point then p.point + 1 else p.point) && p.end == p.frac + |frac|
    requires s[p.whole..] == Chars(whole) + t && t == (if point then "." + Chars(frac) else "") + rest
    requires (t != [] ==> !In(Digit, t[0])) && (rest != [] ==> !In(Digit, rest[0]) && rest[0] != '.')
    ensures p.point == Run(s, p.whole, Digit) && (Is(s, p.point, '.') <==> point)
    ensures p.frac <= p.end <= |s| && p.end == if point then Run(s, p.frac, Digit) else p.point
    ensures s[p.whole..p.point] == Chars(whole) && s[p.frac..p.end] == Chars(frac) && s[p.end..] == rest
  {
    DigitsOver(s, p.whole, whole, t, p.point);
    PointWritten(s, p.point, point, frac, p.frac, p.end, rest, t);
  }

  lemma SplitIs(s: string, p: Parts)
    requires p.sign == Run(s, 0, Space) && p.whole == (if IsSign(s, p.sign) then p.sign + 1 else p.sign)
    requires p.point == Run(s, p.whole, Digit) && p.frac == (if Is(s, p.point, '.') then p.point + 1 else p.point)
    requires p.end == if Is(s, p.point, '.') then Run(s, p.frac, Digit) else p.point
    ensures Split(s) == p
  {}

  lemma SplitWritten(s: string, l: Literal, p: Parts)
    requires l.WellFormed() && s == l.Write() && Placed(l, p)
    ensures Split(s) == p && s[p.end..] == l.power.Write() + l.trail && (Is(s, p.sign, '-') <==> l.sign == "-")
    ensures s[p.whole..p.point] == Chars(l.whole) && s[p.frac..p.end] == Chars(l.frac)
  {
    HeadWritten(s, l, p);
    var rest := l.power.Write() + l.trail;
    AfterWhole(l, rest);
    MantissaWritten(s, p, l.whole, l.point, l.frac, rest, l.Fraction() + rest);
    SplitIs(s, p);
  }

  lemma TailWritten(s: string, l: Literal, e: nat, h: nat, v: int)
    requires l.WellFormed() && e <= |s| && s[e..] == l.power.Write() + l.trail && h + |l.trail| == |s|
             && v == l.power.Value()
    ensures Exponent(s, e) == (v, true, h) && Run(s, h, Space) == |s|
  {
    ExponentWritten(s, e, l.power, l.trail, h, v);
    Passes(s, e, l.power.Write(), l.trail, h);
    assert s[h..] == l.trail + "";
    RunOver(s, h, l.trail, "", |s|, Space);
  }

  lemma ReadParts(s: string, p: Parts, v: int, h: nat, whole: seq<digit>, frac: seq<digit>, r: Reading)
    requires p == Split(s) && Exponent(s, p.end) == (v, true, h) && Run(s, h, Space) == |s| && whole + frac != []
    requires s[p.whole..p.point] == Chars(whole) && s[p.frac..p.end] == Chars(frac)
    requires r == Reading(Is(s, p.sign, '-'), whole + frac, |frac| - v)
    ensures Read(s) == r
  {
    assert Values(Chars(whole) + Chars(frac)) == whole + frac by { CharsAreDigits(whole); CharsAreDigits(frac); }
    assert ReadAs(s, p, (v, true, h)) == r by { assert p.point - p.whole == |whole| && p.end - p.frac == |frac|; }
    assert Read(s) == ReadAs(s, p, (v, true, h));
  }

  lemma ReadPlaced(s: string, l: Literal, p: Parts, h: int, v: int, r: Reading)
    requires l.WellFormed() && s == l.Write() && Placed(l, p) && h + |l.trail| == |s| && v == l.power.Value()
             && r == l.Value()
    ensures Read(s) == r
  {
    SplitWritten(s, l, p);
    TailWritten(s, l, p.end, h, v);
    ReadParts(s, p, v, h, l.whole, l.frac, r);
  }

  /** Every number the grammar writes is read with its value. */
  lemma ReadWritten(l: Literal)
    requires l.WellFormed()
    ensures Read(l.Write()) == l.Value()
  {
    var a, b := |l.lead|, |l.lead| + |l.sign|;
    var i := b + |l.whole|;
    var f := if l.point then i + 1 else i;
    ReadPlaced(l.Write(), l, Parts(a, b, i, f, f + |l.frac|), |l.Write()| - |l.trail|, l.power.Value(), l.Value());
  }

  // ---------- what is read was written ----------

  lemma DigitsBack(t: string)
    requires forall k :: 0 <= k < |t| ==> In(Digit, t[k])
    ensures Chars(Values(t)) == t
  {}

  lemma SignRead(s: string, f: nat, g: nat)
    requires f <= |s| && g == if IsSign(s, f) then f + 1 else f
    ensures s[f..g] in {"", "+", "-"} && (Is(s, f, '-') <==> s[f..g] == "-")
  {
    if Is(s, f, '+') {
      assert s[f..g] == "+";
    } else if Is(s, f, '-') {
      assert s[f..g] == "-";
    } else {
      assert s[f..g] == "";
    }
  }

  lemma PowerWrites(s: string, e: nat, f: nat, g: nat, h: nat, w: Power)
    requires e < f <= g <= h <= |s| && w == Power(s[e], s[e + 1..f], s[f..g], Values(s[g..h]))
    requires forall k :: g <= k < h ==> In(Digit, s[k])
    ensures s[e..] == w.Write() + s[h..]
  {
    DigitsBack(s[g..h]);
    assert w.Write() == s[e..h];
  }

  lemma StrtolParts(s: string, i: nat, v: int, h: nat) returns (f: nat, g: nat, d: seq<digit>)
    requires i <= |s| && Strtol(s, i) == (v, h) && h != i
    ensures i <= f <= g < h <= |s| && AllSpaces(s[i..f]) && s[f..g] in {"", "+", "-"}
    ensures d == Values(s[g..h]) && d != [] && v == WithSign(Prefix(d, |d|), s[f..g] == "-")
    ensures forall k :: g <= k < h ==> In(Digit, s[k])
  {
    f := Run(s, i, Space);
    g := if IsSign(s, f) then f + 1 else f;
    d := Values(s[g..h]);
    SignRead(s, f, g);
  }

  lemma PowerRead(s: string, e: nat, v: int, h: nat) returns (w: Power)
    requires (Is(s, e, 'e') || Is(s, e, 'E')) && Strtol(s, e + 1) == (v, h) && h != e + 1
    requires -NUMERIC_MAX_PRECISION <= v <= NUMERIC_MAX_PRECISION
    ensures w.WellFormed() && w.Value() == v && h <= |s| && s[e..] == w.Write() + s[h..]
  {
    var f, g, d := StrtolParts(s, e + 1, v, h);
    w := Power(s[e], s[e + 1..f], s[f..g], d);
    PowerWrites(s, e, f, g, h, w);
  }

  lemma ExponentRead(s: string, e: nat, v: int, h: nat) returns (w: Power)
    requires e <= |s| && Exponent(s, e) == (v, true, h)
    ensures w.WellFormed() && w.Value() == v && h <= |s| && s[e..] == w.Write() + s[h..]
  {
    w := NoPower;
    if Is(s, e, 'e') || Is(s, e, 'E') { w := PowerRead(s, e, v, h); }
  }

  lemma FractionRead(s: string, i: nat, f: nat, e: nat, t: string)
    requires i <= f <= e <= |s| && f == (if Is(s, i, '.') then i + 1 else i) && (!Is(s, i, '.') ==> e == i)
    requires t == if Is(s, i, '.') then "." + s[f..e] else ""
    ensures s[i..] == t + s[e..]
  {
    assert t == s[i..e];
  }

  lemma PiecesJoin(s: string, a: nat, b: nat, i: nat, whole: string, t: string)
    requires a <= b <= i <= |s| && whole == s[b..i] && t == s[i..]
    ensures s == s[..a] + (s[a..b] + (whole + t))
  {}

  /** The literal whose parts a text is made of. */
  lemma MantissaRead(s: string, p: Parts, l: Literal, rest: string)
    requires p == Split(s) && l.point == Is(s, p.point, '.') && l.sign == s[p.sign..p.whole] && l.lead == s[..p.sign]
    requires Chars(l.whole) == s[p.whole..p.point] && Chars(l.frac) == s[p.frac..p.end]
    requires rest == s[p.end..] && rest == l.power.Write() + l.trail
    ensures l.Write() == s
  {
    FractionRead(s, p.point, p.frac, p.end, l.Fraction());
    PiecesJoin(s, p.sign, p.whole, p.point, Chars(l.whole), l.Fraction() + rest);
  }

  lemma RunBack(s: string, i: nat, j: nat, d: seq<digit>)
    requires i <= j <= |s| && (forall k :: i <= k < j ==> In(Digit, s[k])) && d == Values(s[i..j])
    ensures Chars(d) == s[i..j] && |d| == j - i
  {
    DigitsBack(s[i..j]);
  }

  lemma HeadFormed(s: string, p: Parts)
    requires p == Split(s)
    ensures AllSpaces(s[..p.sign]) && s[p.sign..p.whole] in {"", "+", "-"}
  {
    SignRead(s, p.sign, p.whole);
  }

  lemma PartsFormed(s: string, p: Parts, l: Literal)
    requires p == Split(s) && l.point == Is(s, p.point, '.') && l.sign == s[p.sign..p.whole] && l.lead == s[..p.sign]
    requires l.whole == Values(s[p.whole..p.point]) && l.frac == Values(s[p.frac..p.end])
    ensures AllSpaces(l.lead) && l.sign in {"", "+", "-"} && (l.frac != [] ==> l.point)
    ensures Chars(l.whole) == s[p.whole..p.point] && Chars(l.frac) == s[p.frac..p.end]
    ensures p.point - p.whole + p.end - p.frac != 0 ==> l.whole + l.frac != []
  {
    HeadFormed(s, p);
    RunBack(s, p.whole, p.point, l.whole);
    RunBack(s, p.frac, p.end, l.frac);
    assert |l.whole + l.frac| == |l.whole| + |l.frac|;
  }

  lemma ReadMeans(s: string, p: Parts) returns (v: int, h: nat)
    requires p == Split(s) && Read(s).Reading?
    ensures Exponent(s, p.end) == (v, true, h) && h <= |s| && Run(s, h, Space) == |s|
    ensures p.point - p.whole + p.end - p.frac != 0
  {
    v, h := Exponent(s, p.end).0, Exponent(s, p.end).2;
  }

  lemma LiteralRead(s: string, p: Parts, w: Power, trail: string) returns (l: Literal)
    requires p == Split(s) && p.point - p.whole + p.end - p.frac != 0
    requires w.WellFormed() && AllSpaces(trail) && s[p.end..] == w.Write() + trail
    ensures l.WellFormed() && l.Write() == s
  {
    l := Literal(s[..p.sign], s[p.sign..p.whole], Values(s[p.whole..p.point]), Is(s, p.point, '.'),
                 Values(s[p.frac..p.end]), w, trail);
    PartsFormed(s, p, l);
    MantissaRead(s, p, l, s[p.end..]);
  }

  /** Every text that is read is one the grammar writes. */
  lemma WrittenIfRead(s: string) returns (l: Literal)
    requires Read(s).Reading?
    ensures l.WellFormed() && l.Write() == s
  {
    var p := Split(s);
    var v, h := ReadMeans(s, p);
    var w := ExponentRead(s, p.end, v, h);
    l := LiteralRead(s, p, w, s[h..]);
  }

  /** The scanner accepts the grammar, all of it and nothing else. */
  lemma AcceptedIff(s: string)
    ensures Read(s).Reading? <==> exists l: Literal :: l.WellFormed() && l.Write() == s
  {
    if Read(s).Reading? { var l := WrittenIfRead(s); }
    if l: Literal :| l.WellFormed() && l.Write() == s { ReadWritten(l); }
  }
}
