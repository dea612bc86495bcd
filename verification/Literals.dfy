/** set_var_from_str: scanning the text of a number, and the grammar it accepts. */
module Literals {
  import opened Decimal
  import opened Magnitudes
  import opened Variables
  import opened Quotients
  import opened Rounding

  datatype Class = Space | Digit

  predicate In(c: Class, x: char)
  {
    match c
    case Space => x in {' ', '\t', '\n', '\r', '\U{0B}', '\U{0C}'}
    case Digit => '0' <= x <= '9'
  }

  function DigitValue(x: char): digit { if '0' <= x <= '9' then x as int - '0' as int else 0 }

  function Values(t: string): seq<digit> { seq(|t|, k requires 0 <= k < |t| => DigitValue(t[k])) }

  /** And read as the digit that has it in this table. */
  lemma ValuesAre(t: string)
    ensures Values("0123456789") == [0, 1, 2, 3, 4, 5, 6, 7, 8, 9] && |Values(t)| == |t|
    ensures forall k :: 0 <= k < |t| && t[k] in "0123456789" ==> "0123456789"[Values(t)[k]] == t[k]
  {}

  /** The digits are these ten characters, the spaces the blank and the codes 9 to 13. */
  lemma ClassesAre(x: char)
    ensures In(Digit, x) <==> x in "0123456789"
    ensures In(Space, x) <==> x == ' ' || 9 <= x as int <= 13
  {
    var t := "0123456789";
    if In(Digit, x) { assert t[x as int - 48] == x; }
  }

  /** The end of the run of characters of a class that starts at i. */
  function Run(s: string, i: nat, c: Class): (j: nat)
    requires i <= |s|
    ensures i <= j <= |s| && (forall k :: i <= k < j ==> In(c, s[k])) && (j < |s| ==> !In(c, s[j]))
    decreases |s| - i
  {
    if i < |s| && In(c, s[i]) then Run(s, i + 1, c) else i
  }

  lemma {:induction false} RunIs(s: string, i: nat, j: nat, c: Class)
    requires i <= j <= |s| && (forall k :: i <= k < j ==> In(c, s[k])) && (j < |s| ==> !In(c, s[j]))
    ensures Run(s, i, c) == j
    decreases j - i
  {
    if i < j { RunIs(s, i + 1, j, c); }
  }

  predicate Is(s: string, i: nat, x: char) { i < |s| && s[i] == x }

  predicate IsSign(s: string, i: nat) { Is(s, i, '+') || Is(s, i, '-') }

  /** strtol in base 10: optional white space, an optional sign, digits.  The end is i if there are none. */
  function Strtol(s: string, i: nat): (r: (int, nat))
    requires i <= |s|
    ensures i <= r.1 <= |s|
  {
    var f := Run(s, i, Space);
    var g := if IsSign(s, f) then f + 1 else f;
    var h := Run(s, g, Digit);
    if h == g then (0, i) else (WithSign(Prefix(Values(s[g..h]), h - g), Is(s, f, '-')), h)
  }

  /** A scanned number: sign, all its digits, and how many of them follow the point, less the exponent. */
  datatype Reading = Malformed | Reading(neg: bool, digits: seq<digit>, scale: int)

  /** Where the parts of the text begin: the sign, the digits, the point, the fraction, the exponent. */
  datatype Parts = Parts(sign: nat, whole: nat, point: nat, frac: nat, end: nat)

  function Split(s: string): (p: Parts)
    ensures p.sign <= p.whole <= p.point <= p.frac <= p.end <= |s|
  {
    var a := Run(s, 0, Space);
    var b := if IsSign(s, a) then a + 1 else a;
    var i := Run(s, b, Digit);
    var f := if Is(s, i, '.') then i + 1 else i;
    Parts(a, b, i, f, if Is(s, i, '.') then Run(s, f, Digit) else i)
  }

  /** The exponent, whether it is acceptable, and where it ends. */
  function Exponent(s: string, e: nat): (r: (int, bool, nat))
    requires e <= |s|
    ensures e <= r.2 <= |s|
  {
    if Is(s, e, 'e') || Is(s, e, 'E') then
      var (v, h) := Strtol(s, e + 1);
      (v, h != e + 1 && -NUMERIC_MAX_PRECISION <= v <= NUMERIC_MAX_PRECISION, h)
    else (0, true, e)
  }

  /** The number made of these parts and this exponent. */
  function ReadAs(s: string, p: Parts, e: (int, bool, nat)): Reading
    requires p.whole <= p.point <= p.frac <= p.end <= |s| && e.2 <= |s|
  {
    if p.point - p.whole + p.end - p.frac == 0 || !e.1 || Run(s, e.2, Space) != |s| then Malformed
    else Reading(Is(s, p.sign, '-'), Values(s[p.whole..p.point] + s[p.frac..p.end]), p.end - p.frac - e.0)
  }

  function Read(s: string): Reading
  {
    var p := Split(s);
    ReadAs(s, p, Exponent(s, p.end))
  }

  // ---------- the scanner ----------

  method SkipSpaces(s: string, cp0: nat) returns (cp: nat)
    requires cp0 <= |s|
    ensures cp == Run(s, cp0, Space)
  {
    cp := cp0;
    while cp < |s| && In(Space, s[cp])
      invariant cp0 <= cp <= |s| && forall k :: cp0 <= k < cp ==> In(Space, s[k])
    {
      cp := cp + 1;
    }
    RunIs(s, cp0, cp, Space);
  }

  /** The variables of the mantissa loop: the place in the text, how many digits were read, whether the point was seen,
      whether the text is refused, and the weight and scale counted so far. */
  datatype Scan = Scan(cp: nat, count: nat, point: bool, bad: bool, weight: int, dscale: int)

  /** What the mantissa loop has read up to cp: the digits d, and perhaps the point. */
  ghost predicate Scanned(s: string, p: Parts, g: Scan, d: seq<digit>)
  {
    && p == Split(s) && p.whole <= g.cp <= |s|
    && (!g.point ==> g.cp <= p.point && g.weight == g.cp - p.whole - 1 && g.dscale == 0
                     && d == Values(s[p.whole..g.cp]))
    && (g.point ==> p.point < p.frac <= g.cp <= p.end && g.weight == p.point - p.whole - 1 && g.dscale == g.cp - p.frac
                    && d == Values(s[p.whole..p.point] + s[p.frac..g.cp]))
  }

  /** The mantissa is read to its end and has a digit. */
  ghost predicate Mantissa(s: string, p: Parts, g: Scan, d: seq<digit>)
  {
    && p == Split(s) && g.cp == p.end && d != [] && g.count == |d|
    && g.weight == p.point - p.whole - 1 && g.dscale == p.end - p.frac
    && d == Values(s[p.whole..p.point] + s[p.frac..p.end])
  }

  ghost predicate DigitNext(s: string, cp: nat) { cp < |s| && In(Digit, s[cp]) }

  lemma ValuesNext(t: string, x: char, u: string)
    requires u == t + [x]
    ensures Values(u) == Values(t) + [DigitValue(x)]
  {}

  lemma WholeDigit(s: string, p: Parts, g: Scan, d: seq<digit>, h: Scan)
    requires Scanned(s, p, g, d) && !g.point && DigitNext(s, g.cp)
    requires h == g.(cp := g.cp + 1, count := g.count + 1, weight := g.weight + 1)
    ensures Scanned(s, p, h, d + [DigitValue(s[g.cp])])
  {
    ValuesNext(s[p.whole..g.cp], s[g.cp], s[p.whole..h.cp]);
  }

  lemma FractionDigit(s: string, p: Parts, g: Scan, d: seq<digit>, h: Scan)
    requires Scanned(s, p, g, d) && g.point && DigitNext(s, g.cp)
    requires h == g.(cp := g.cp + 1, count := g.count + 1, dscale := g.dscale + 1)
    ensures Scanned(s, p, h, d + [DigitValue(s[g.cp])])
  {
    ValuesNext(s[p.whole..p.point] + s[p.frac..g.cp], s[g.cp], s[p.whole..p.point] + s[p.frac..h.cp]);
  }

  lemma ScanPoint(s: string, p: Parts, g: Scan, d: seq<digit>)
    requires Scanned(s, p, g, d) && !g.point && Is(s, g.cp, '.')
    ensures Scanned(s, p, g.(cp := g.cp + 1, point := true), d)
  {
    assert g.cp == p.point && p.frac == g.cp + 1;
    assert s[p.whole..g.cp] + s[p.frac..p.frac] == s[p.whole..g.cp];
  }

  lemma SecondPoint(s: string, p: Parts, g: Scan, d: seq<digit>)
    requires Scanned(s, p, g, d) && g.point && Is(s, g.cp, '.')
    ensures Read(s).Malformed?
  {
    assert g.cp == p.end && Exponent(s, p.end) == (0, true, p.end);
  }

  lemma ScanEnd(s: string, p: Parts, g: Scan, d: seq<digit>)
    requires Scanned(s, p, g, d) && !DigitNext(s, g.cp) && !Is(s, g.cp, '.') && d != [] && g.count == |d|
    ensures Mantissa(s, p, g, d)
  {
    assert g.cp == p.end;
    if !g.point {
      assert p.frac == p.point == g.cp;
      assert s[p.whole..g.cp] + s[g.cp..g.cp] == s[p.whole..g.cp];
    }
  }

  /** The first character decides whether there will be a digit. */
  lemma FirstDigit(s: string, p: Parts, cp: nat)
    requires p == Split(s) && cp == if Is(s, p.whole, '.') then p.whole + 1 else p.whole
    ensures !DigitNext(s, cp) ==> Read(s).Malformed?
  {
    if !DigitNext(s, cp) {
      RunIs(s, p.whole, p.whole, Digit);
      if Is(s, p.whole, '.') { RunIs(s, cp, cp, Digit); }
    }
  }

  /** The state of the mantissa loop.  After a second point only the refusal matters. */
  ghost predicate Scanning(s: string, p: Parts, g: Scan, twice: bool, d: seq<digit>)
  {
    && p == Split(s) && p.whole <= g.cp <= |s| && g.count == |d| <= g.cp - p.whole
    && (g.bad ==> Read(s).Malformed?) && (twice ==> g.bad) && (!g.bad ==> d != [] || DigitNext(s, g.cp))
    && (!twice ==> Scanned(s, p, g, d))
  }

  lemma DigitStep(s: string, p: Parts, g: Scan, twice: bool, d: seq<digit>, h: Scan)
    requires Scanning(s, p, g, twice, d) && DigitNext(s, g.cp)
    requires h == g.(cp := g.cp + 1, count := g.count + 1, weight := if g.point then g.weight else g.weight + 1,
                     dscale := if g.point then g.dscale + 1 else g.dscale)
    ensures Scanning(s, p, h, twice, d + [DigitValue(s[g.cp])])
  {
    if !twice {
      if g.point { FractionDigit(s, p, g, d, h); } else { WholeDigit(s, p, g, d, h); }
    }
  }

  lemma PointStep(s: string, p: Parts, g: Scan, twice: bool, d: seq<digit>, h: Scan)
    requires Scanning(s, p, g, twice, d) && Is(s, g.cp, '.')
    requires h == g.(cp := g.cp + 1, point := true, bad := g.bad || g.point)
    ensures Scanning(s, p, h, twice || g.point, d)
  {
    if !twice && g.point { SecondPoint(s, p, g, d); }
    if !twice && !g.point { ScanPoint(s, p, g, d); }
  }

  lemma EndStep(s: string, p: Parts, g: Scan, twice: bool, d: seq<digit>)
    requires Scanning(s, p, g, twice, d) && !DigitNext(s, g.cp) && !Is(s, g.cp, '.')
    ensures if g.bad then Read(s).Malformed? else Mantissa(s, p, g, d)
  {
    if !g.bad { ScanEnd(s, p, g, d); }
  }

  method PutDigit(buf: array<digit>, i: nat, x: digit)
    requires i + 1 < buf.Length
    modifies buf
    ensures buf[0] == old(buf[0]) && buf[1..i + 2] == old(buf[1..i + 1]) + [x]
  {
    buf[1 + i] := x;
  }

  /** A leading point is passed, and a digit must come next. */
  method MantissaStart(s: string, cp: nat, ghost p: Parts) returns (g: Scan)
    requires p == Split(s) && cp == p.whole
    ensures Scanning(s, p, g, false, [])
  {
    g := Scan(cp, 0, false, false, -1, 0);
    assert Values(s[cp..cp]) == [];
    if cp < |s| && s[cp] == '.' {
      ScanPoint(s, p, g, []);
      g := g.(cp := cp + 1, point := true);
    }
    FirstDigit(s, p, g.cp);
    if !(g.cp < |s| && In(Digit, s[g.cp])) { g := g.(bad := true); }
  }

  /** A digit of the mantissa goes to the buffer, and counts for the weight or the scale. */
  method ScanPlace(s: string, g: Scan, buf: array<digit>, ghost p: Parts, ghost twice: bool, ghost d0: seq<digit>)
    returns (h: Scan, ghost d: seq<digit>)
    requires Scanning(s, p, g, twice, d0) && DigitNext(s, g.cp)
    requires g.count + 1 < buf.Length && d0 == buf[1..g.count + 1]
    modifies buf
    ensures Scanning(s, p, h, twice, d) && h.cp == g.cp + 1
    ensures buf[0] == old(buf[0]) && h.count < buf.Length && d == buf[1..h.count + 1]
  {
    PutDigit(buf, g.count, DigitValue(s[g.cp]));
    d := d0 + [DigitValue(s[g.cp])];
    h := if g.point then g.(cp := g.cp + 1, count := g.count + 1, dscale := g.dscale + 1)
         else g.(cp := g.cp + 1, count := g.count + 1, weight := g.weight + 1);
    DigitStep(s, p, g, twice, d0, h);
  }

  /** One character of the mantissa.  more is false at the first that is neither a digit nor a point. */
  method ScanChar(s: string, g: Scan, buf: array<digit>, ghost p: Parts, ghost twice0: bool, ghost d0: seq<digit>)
    returns (more: bool, h: Scan, ghost twice: bool, ghost d: seq<digit>)
    requires Scanning(s, p, g, twice0, d0) && g.cp < |s|
    requires g.count + 1 < buf.Length && d0 == buf[1..g.count + 1]
    modifies buf
    ensures Scanning(s, p, h, twice, d) && buf[0] == old(buf[0]) && h.count < buf.Length && d == buf[1..h.count + 1]
    ensures if more then h.cp == g.cp + 1 else !DigitNext(s, h.cp) && !Is(s, h.cp, '.')
  {
    more, h, twice, d := true, g, twice0, d0;
    if In(Digit, s[g.cp]) {
      h, d := ScanPlace(s, g, buf, p, twice, d0);
    } else if s[g.cp] == '.' {
      h := g.(cp := g.cp + 1, point := true, bad := g.bad || g.point);
      PointStep(s, p, g, twice, d, h);
      twice := twice || g.point;
    } else {
      more := false;
    }
  }

  /** The mantissa loop of set_var_from_str: digits go to the buffer from index 1 on. */
  method ScanMantissa(s: string, cp: nat, buf: array<digit>, ghost p: Parts) returns (g: Scan)
    requires p == Split(s) && cp == p.whole && |s| - cp < buf.Length
    modifies buf
    ensures buf[0] == old(buf[0]) && g.cp <= |s| && g.count < buf.Length
    ensures if g.bad then Read(s).Malformed? else Mantissa(s, p, g, buf[1..g.count + 1])
  {
    g := MantissaStart(s, cp, p);
    ghost var twice, d: seq<digit> := false, [];
    while g.cp < |s|
      invariant Scanning(s, p, g, twice, d)
      invariant g.count < buf.Length && d == buf[1..g.count + 1] && buf[0] == old(buf[0])
      decreases |s| - g.cp
    {
      var more;
      more, g, twice, d := ScanChar(s, g, buf, p, twice, d);
      if !more { break; }
    }
    EndStep(s, p, g, twice, d);
  }

  /** The exponent, and nothing but spaces after it. */
  method ScanTail(s: string, cp0: nat) returns (exponent: int, bad: bool)
    requires cp0 <= |s|
    ensures exponent == Exponent(s, cp0).0
    ensures !bad <==> Exponent(s, cp0).1 && Run(s, Exponent(s, cp0).2, Space) == |s|
  {
    var cp := cp0;
    exponent, bad := 0, false;
    if cp < |s| && (s[cp] == 'e' || s[cp] == 'E') {
      cp := cp + 1;
      var (value, end) := Strtol(s, cp);
      if end == cp { bad := true; }
      cp, exponent := end, value;
      if exponent > NUMERIC_MAX_PRECISION || exponent < -NUMERIC_MAX_PRECISION { bad := true; }
    }
    var rest := OnlySpaces(s, cp);
    bad := bad || !rest;
  }

  method OnlySpaces(s: string, cp0: nat) returns (clean: bool)
    requires cp0 <= |s|
    ensures clean <==> Run(s, cp0, Space) == |s|
  {
    clean := true;
    var cp := cp0;
    while cp < |s|
      invariant cp0 <= cp <= |s|
      invariant clean ==> forall k :: cp0 <= k < cp ==> In(Space, s[k])
      invariant !clean ==> Run(s, cp0, Space) != |s|
    {
      if !In(Space, s[cp]) { clean := false; }
      cp := cp + 1;
    }
    if clean { RunIs(s, cp0, |s|, Space); }
  }

  /** Leading zeros are skipped in the buffer. */
  method SkipZeros(buf: array<digit>, i: nat, weight: int, ghost d: seq<digit>, ghost n: nat, ghost scale: int)
    returns (start: nat, ndigits: nat, w: int, ghost t: Mag)
    requires i + 1 <= buf.Length && d == buf[1..i + 1] && weight + scale + 1 == i && n == Prefix(d, |d|) && buf[0] == 0
    ensures 1 <= start && start + ndigits <= buf.Length && buf[start - 1] == 0
    ensures t == Mag(buf[start..start + ndigits], w) && Leads(t) && t.Is(n, scale) && (ndigits == 0 ==> w == 0)
  {
    start, ndigits, w := 1, i, weight;
    while ndigits > 0 && buf[start] == 0
      invariant 1 <= start && start + ndigits == i + 1 && w == weight - (start - 1) && buf[start - 1] == 0
      invariant forall k :: 1 <= k < start ==> buf[k] == 0
    {
      start, w, ndigits := start + 1, w - 1, ndigits - 1;
    }
    ghost var b := buf[..];
    assert b[1..i + 1] == d && b[start..start + ndigits] == buf[start..start + ndigits];
    t := Mag(b[start..start + ndigits], w);
    assert ndigits > 0 ==> t.digits[0] == buf[start] != 0;
    ZerosSkipped(b, i, weight, start, ndigits, d, n, scale, t);
    if ndigits == 0 {
      w := 0;
      ZeroKept(t, n, scale);
      t := Mag([], 0);
    }
  }

  lemma ZerosSkipped(b: seq<digit>, i: nat, weight: int, start: nat, ndigits: nat, d: seq<digit>, n: nat, scale: int,
                     t: Mag)
    requires 1 <= start && start + ndigits == i + 1 <= |b| && d == b[1..i + 1]
             && (forall k :: 1 <= k < start ==> b[k] == 0)
    requires weight + scale + 1 == i && n == Prefix(d, |d|) && t == Mag(b[start..start + ndigits], weight - (start - 1))
    ensures t.Is(n, scale)
  {
    TrimSame(b, 1, i, weight, start, ndigits);
    ValueKept(Mag(d, weight), t, n, scale);
  }

  lemma ValueKept(m: Mag, t: Mag, n: nat, scale: int)
    requires SameValue(m, t) && m.weight + scale + 1 == |m.digits| && n == m.Coef()
    ensures t.Is(n, scale)
  {
    assert m.Is(n, scale);
  }

  lemma ZeroKept(t: Mag, n: nat, scale: int)
    requires t.digits == [] && t.Is(n, scale)
    ensures Mag([], 0).Is(n, scale)
  {
    AllZero(t, scale);
    AllZero(Mag([], 0), scale);
  }

  /** The end of set_var_from_str: leading zeros are skipped, and the scales follow the digits after the point. */
  method SettleDigits(dest: NumericVar, i: nat, weight: int, dscale: int, ghost d: seq<digit>, ghost n: nat,
                      ghost scale: int)
    requires dest.Spare() && dest.start == 1 && i + 1 <= dest.buf.Length && d == dest.buf[1..i + 1]
    requires weight + scale + 1 == i && n == Prefix(d, |d|)
    modifies dest
    ensures dest.Spare() && Leads(dest.Magnitude()) && dest.Magnitude().Is(n, scale)
    ensures dest.Magnitude().digits == [] ==> dest.weight == 0
    ensures dest.rscale == dscale && dest.dscale == dscale && dest.sign == old(dest.sign) && dest.buf == old(dest.buf)
  {
    var start, ndigits, w;
    ghost var t;
    start, ndigits, w, t := SkipZeros(dest.buf, i, weight, d, n, scale);
    dest.SetDigits(dest.buf, start, ndigits, w, dscale);
    SetScales(dest, dscale, t);
  }

  lemma ReadIs(s: string, p: Parts, g: Scan, d: seq<digit>, e: (int, bool, nat))
    requires Mantissa(s, p, g, d) && e == Exponent(s, g.cp)
    ensures g.weight + g.dscale + 1 == |d|
    ensures Read(s) == if e.1 && Run(s, e.2, Space) == |s| then Reading(Is(s, p.sign, '-'), d, g.dscale - e.0)
                       else Malformed
  {
    MantissaLength(s, p, d);
    ReadFrom(s, p, d, e);
  }

  lemma ReadFrom(s: string, p: Parts, d: seq<digit>, e: (int, bool, nat))
    requires p == Split(s) && e == Exponent(s, p.end) && d == Values(s[p.whole..p.point] + s[p.frac..p.end])
    requires |d| == p.point - p.whole + p.end - p.frac > 0
    ensures Read(s) == if e.1 && Run(s, e.2, Space) == |s| then Reading(Is(s, p.sign, '-'), d, p.end - p.frac - e.0)
                       else Malformed
  {
    assert Read(s) == ReadAs(s, p, e);
    ReadAsIs(s, p, d, e);
  }

  lemma ReadAsIs(s: string, p: Parts, d: seq<digit>, e: (int, bool, nat))
    requires p.whole <= p.point <= p.frac <= p.end <= |s| && e.2 <= |s|
    requires d == Values(s[p.whole..p.point] + s[p.frac..p.end]) && |d| == p.point - p.whole + p.end - p.frac > 0
    ensures ReadAs(s, p, e) ==
            if e.1 && Run(s, e.2, Space) == |s| then Reading(Is(s, p.sign, '-'), d, p.end - p.frac - e.0) else Malformed
  {}

  lemma MantissaLength(s: string, p: Parts, d: seq<digit>)
    requires p == Split(s) && d == Values(s[p.whole..p.point] + s[p.frac..p.end])
    ensures |d| == p.point - p.whole + p.end - p.frac
  {}

  /** Everything after the sign.  A refused text has no number to hand on. */
  method ScanNumber(s: string, cp: nat, buf: array<digit>, ghost p: Parts)
    returns (i: nat, weight: int, dscale: int, exponent: int, bad: bool)
    requires p == Split(s) && cp == p.whole && |s| - cp < buf.Length
    modifies buf
    ensures buf[0] == old(buf[0]) && i < buf.Length
    ensures bad <==> Read(s).Malformed?
    ensures !bad ==> Read(s) == Reading(Is(s, p.sign, '-'), buf[1..i + 1], dscale - exponent)
                     && weight + dscale + 1 == i
  {
    var g := ScanMantissa(s, cp, buf, p);
    var badTail;
    exponent, badTail := ScanTail(s, g.cp);
    if !g.bad { ReadIs(s, p, g, buf[1..g.count + 1], Exponent(s, g.cp)); }
    i, weight, dscale, bad := g.count, g.weight, g.dscale, g.bad || badTail;
  }

  /** The variable holds the number read, with no leading zeros and room for a carry. */
  ghost predicate Parsed(v: NumericVar, r: Reading)
    requires r.Reading?
    reads v, v.buf
  {
    && v.Spare() && Leads(v.Magnitude()) && (v.Magnitude().digits == [] ==> v.weight == 0)
    && v.Magnitude().Is(Prefix(r.digits, |r.digits|), r.scale)
    && v.sign == (if r.neg then Neg else Pos) && v.rscale == Max(0, r.scale) && v.dscale == Max(0, r.scale)
  }

  method ScanSign(s: string, cp0: nat) returns (cp: nat, sign: NumericSign)
    requires cp0 <= |s|
    ensures cp == if IsSign(s, cp0) then cp0 + 1 else cp0
    ensures sign == if Is(s, cp0, '-') then Neg else Pos
  {
    cp, sign := cp0, Pos;
    if cp < |s| && s[cp] == '+' {
      cp := cp + 1;
    } else if cp < |s| && s[cp] == '-' {
      sign := Neg;
      cp := cp + 1;
    }
  }

  /** The buffer is allocated for the rest of the text, and the sign read. */
  method OpenNumber(s: string, dest: NumericVar) returns (cp: nat)
    modifies dest
    ensures cp == Split(s).whole && dest.Spare() && fresh(dest.buf) && dest.start == 1 && |s| - cp < dest.buf.Length
    ensures dest.sign == if Is(s, Split(s).sign, '-') then Neg else Pos
  {
    cp := SkipSpaces(s, 0);
    dest.AllocVar(|s| - cp);
    cp, dest.sign := ScanSign(s, cp);
  }

  /** The end of set_var_from_str, for a text that may have been refused. */
  method CloseNumber(dest: NumericVar, i: nat, weight: int, dscale: int, exponent: int, ghost r: Reading)
    requires dest.Spare() && dest.start == 1 && i < dest.buf.Length && dest.sign != NaN
    requires r.Reading? ==> r == Reading(dest.sign == Neg, dest.buf[1..i + 1], dscale - exponent)
                            && weight + dscale + 1 == i
    modifies dest
    ensures r.Reading? ==> Parsed(dest, r)
    ensures dest.buf == old(dest.buf)
  {
    ghost var d := dest.buf[1..i + 1];
    SettleDigits(dest, i, weight + exponent, Max(0, dscale - exponent), d, Prefix(d, |d|), i - weight - exponent - 1);
  }

  method SetVarFromStr(s: string, dest: NumericVar) returns (ex: DecimalException)
    modifies dest
    ensures ex == if Read(s).Malformed? then NumericFormat else NoError
    ensures Read(s).Reading? ==> Parsed(dest, Read(s)) && fresh(dest.buf)
  {
    var cp := OpenNumber(s, dest);
    var i, weight, dscale, exponent, bad := ScanNumber(s, cp, dest.buf, Split(s));
    ex := if bad then NumericFormat else NoError;
    assert dest.buf[0] == 0;
    CloseNumber(dest, i, weight, dscale, exponent, Read(s));
  }
}
