/** Rounding in place: numeric_round, numeric_trunc, apply_typmod and numeric(). */
module Rounding {
  import opened Decimal
  import opened Magnitudes
  import opened Variables
  import opened Packed
  import opened Arithmetic
  import opened Quotients

  // ---------- the carry into the spare digit ----------

  /** A zero in front of a stretch of digits adds nothing to it. */
  lemma LeadingZero(b: seq<digit>, off: nat, i: nat)
    requires 0 < off && off + i <= |b| && b[off - 1] == 0
    ensures Prefix(b[off - 1..off + i], i + 1) == Prefix(b[off..off + i], i)
  {
    PrefixShift(b[off - 1..off + i], b[off..off + i], 1, i);
  }

  lemma TakePrefix(b: seq<digit>, off: nat, n: nat, i: nat)
    requires off + n <= |b| && i <= n
    ensures Prefix(b[off..off + n], i) == Prefix(b[off..off + i], i)
  {
    PrefixShift(b[off..off + n], b[off..off + i], 0, i);
  }

  /** What the carry loop leaves from index off - g on is the rounded magnitude. */
  lemma Carried(d: seq<digit>, e: seq<digit>, off: nat, n: nat, i: nat, w: int, scale: int, g: nat)
    requires 0 < off && off + n <= |d| == |e| && i < n && i == w + scale + 1 && g <= 1
    requires d[off - 1] == 0 && (g == 0 ==> e[off - 1] == 0)
    requires Prefix(e[off - 1..off + i], i + 1) == Prefix(d[off - 1..off + i], i + 1) + if d[off + i] > 4 then 1 else 0
    ensures Mag(e[off - g..off + i], w + g).Is(Mag(d[off..off + n], w).Round(scale), scale)
  {
    TakePrefix(d, off, n, i);
    LeadingZero(d, off, i);
    if g == 0 { LeadingZero(e, off, i); }
  }

  /** No leading zero. */
  ghost predicate Leads(m: Mag) { m.digits != [] ==> m.digits[0] != 0 }

  /** Rounding up within the same length keeps the first digit from becoming zero. */
  lemma LeadKept(m: Mag, v: Mag, scale: int)
    requires Leads(m) && m.digits != [] && v.weight == m.weight && v.At(scale) >= m.At(scale)
    requires m.weight + scale + 1 > 0
    ensures Leads(v)
  {
    var i := m.weight + scale;
    LeadBound(m.digits, i + 1);
    if v.digits != [] && v.digits[0] == 0 {
      PrefixShift(v.digits, v.digits[1..], 1, i);
      PrefixBound(v.digits[1..], i);
    }
  }

  lemma RoundedLeads(m: Mag, v: Mag, scale: int, gained: nat, x: nat)
    requires m.digits != [] && v.weight == m.weight + gained && v.At(scale) == x == m.Round(scale)
    requires |v.digits| == v.weight + scale + 1 && (gained == 1 ==> v.digits != [] && v.digits[0] == 1) && gained <= 1
    ensures Leads(m) ==> Leads(v)
  {
    if gained == 0 && m.weight + scale + 1 > 0 && Leads(m) { LeadKept(m, v, scale); }
  }

  /** The rounding of the digits in a buffer to the first i of n: one digit is gained at most, and
      the spare one in front takes it. */
  method CarryDigits(buf: array<digit>, start: nat, ghost n: nat, i: nat, ghost weight: int, ghost scale: int,
                     ghost m: Mag, ghost x: nat)
    returns (gained: nat, ghost r: Mag)
    requires 0 < start && start + n <= buf.Length && i < n && i == weight + scale + 1 && buf[start - 1] == 0
    requires m == Mag(buf[start..start + n], weight) && x == m.Round(scale)
    modifies buf
    ensures gained <= 1 && r == Mag(buf[start - gained..start + i], weight + gained)
    ensures r.Is(x, scale) && (Leads(m) ==> Leads(r))
  {
    var carry: int := if buf[start + i] > 4 then 1 else 0;
    ghost var d := buf[..];
    assert d[start..start + n] == m.digits && d[start - 1..start + i] == buf[start - 1..start + i];
    var j := PropagateCarry(buf, start - 1, start + i, carry);
    gained := if j < start then 1 else 0;
    ghost var e := buf[..];
    assert e[start - 1..start + i] == buf[start - 1..start + i]
           && e[start - gained..start + i] == buf[start - gained..start + i];
    Carried(d, e, start, n, i, weight, scale, gained);
    r := Mag(e[start - gained..start + i], weight + gained);
    RoundedLeads(m, r, scale, gained, x);
  }

  /** The rounding of a variable in place to its first i digits. */
  method CarryRound(v: NumericVar, i: nat, scale: int, ghost m: Mag, ghost x: nat) returns (ghost r: Mag)
    requires v.Spare() && m == v.Magnitude() && i == v.weight + scale + 1 && i < v.ndigits && x == m.Round(scale)
    modifies v, v.buf
    ensures v.Valid() && v.buf == old(v.buf) && v.Magnitude() == r && r.Is(x, scale) && (Leads(m) ==> Leads(r))
    ensures v.sign == old(v.sign) && v.rscale == old(v.rscale) && v.dscale == old(v.dscale)
    ensures v.ndigits == v.weight + scale + 1
    ensures v.weight == m.weight || (v.weight == m.weight + 1 && v.ndigits > 0)
  {
    var gained;
    gained, r := CarryDigits(v.buf, v.start, v.ndigits, i, v.weight, scale, m, x);
    v.SetDigits(v.buf, v.start - gained, i + gained, v.weight + gained, v.rscale);
  }

  /** The rounding step of apply_typmod and get_str_from_var. */
  method RoundTo(v: NumericVar, scale: int, ghost m: Mag, ghost x: nat) returns (ghost r: Mag)
    requires v.Spare() && m == v.Magnitude() && x == m.Round(scale)
    modifies v, v.buf
    ensures v.Valid() && v.buf == old(v.buf) && v.Magnitude() == r && r.Is(x, scale) && (Leads(m) ==> Leads(r))
    ensures v.sign == old(v.sign) && v.rscale == old(v.rscale) && v.dscale == old(v.dscale)
    ensures v.ndigits == v.weight + scale + 1
            || (v.weight == m.weight && v.ndigits == Max(0, Min(|m.digits|, v.weight + scale + 1)))
    ensures v.weight == m.weight || (v.weight == m.weight + 1 && v.ndigits > 0)
  {
    var i := scale + v.weight + 1;
    if i >= 0 && v.ndigits > i {
      r := CarryRound(v, i, scale, m, x);
    } else {
      v.ndigits := Max(0, Min(i, v.ndigits));
      r := Mag(m.digits[..v.ndigits], m.weight);
      RoundCoarse(m, scale, v.ndigits);
    }
  }

  /** Nothing to round: all digits count, or the first one is below a tenth of the last place. */
  lemma RoundCoarse(m: Mag, scale: int, n: nat)
    requires m.weight + scale + 1 < 0 || |m.digits| <= m.weight + scale + 1
    requires n == Max(0, Min(m.weight + scale + 1, |m.digits|))
    ensures Mag(m.digits[..n], m.weight).Is(m.Round(scale), scale)
  {
    KeptDigits(m, scale, n);
  }

  // ---------- numeric_round and numeric_trunc ----------

  /** n / 10^k rounded half away from zero. */
  function HalfAway(n: int, k: int): int { if n < 0 then -(HalfUp(-n, k) as int) else HalfUp(n, k) as int }

  function ClampScale(scale: int): int { Min(NUMERIC_MAX_RESULT_SCALE, Max(-NUMERIC_MAX_RESULT_SCALE, scale)) }

  /** The scale a rounded number is stored with. */
  function StoredScale(scale: int): nat { Min(NUMERIC_MAX_DISPLAY_SCALE, Max(0, scale)) }

  /** A whole number of units 10^-s, stored with scale StoredScale(s): a negative s multiplies, and
      an s past the display limit cuts off. */
  function AtStored(n: int, s: int): Numeric
  {
    Encode(CutSigned(n, s - StoredScale(s)), StoredScale(s), StoredScale(s))
  }

  function Rounded(p: Numeric, scale: int): Numeric
  {
    if IsNaN(p) then NUMERIC_NAN
    else var s := ClampScale(scale); AtStored(HalfAway(p.Value(), p.rscale - s), s)
  }

  function Truncated(p: Numeric, scale: int): Numeric
  {
    if IsNaN(p) then NUMERIC_NAN
    else var s := ClampScale(scale); AtStored(CutSigned(p.Value(), p.rscale - s), s)
  }

  /** The common end of numeric_round and numeric_trunc. */
  method StoreScaled(arg: NumericVar, scale: int, ghost n: nat) returns (res: Numeric)
    requires arg.Valid() && arg.sign != NaN && arg.Magnitude().Is(n, scale)
    modifies arg
    ensures res == AtStored(WithSign(n, old(arg.sign) == Neg), scale)
  {
    ghost var m, h := arg.Magnitude(), WithSign(n, arg.sign == Neg);
    var stored := Min(NUMERIC_MAX_DISPLAY_SCALE, Max(0, scale));
    ghost var v := CutSigned(h, scale - stored);
    SetScales(arg, stored, m);
    assert arg.Signed(stored) == v by {
      AtCut(m, n, scale, stored);
      CutZero(scale - stored);
    }
    AtStoredIs(h, scale, stored, v);
    res := MakeResult(arg);
  }

  lemma RoundedIs(p: Numeric, scale: int, s: int)
    requires p.Canonical() && s == ClampScale(scale)
    ensures Rounded(p, scale) == AtStored(WithSign(p.Magnitude().Round(s), p.sign == Neg), s)
  {
    HalfAwayIs(p, s, HalfAway(p.Value(), p.rscale - s));
  }

  method NumericRound(num: Numeric, scale: int) returns (res: Numeric)
    requires Stored(num)
    ensures res == Rounded(num, scale)
    ensures IsNaN(num) ==> res == Numeric(0, 0, NaN, 0, [])
    ensures !IsNaN(num) ==> res.rscale == res.dscale == if scale < 0 then 0 else if scale > 1000 then 1000 else scale
  {
    if IsNaN(num) { return NUMERIC_NAN; }
    var s := Min(NUMERIC_MAX_RESULT_SCALE, Max(-NUMERIC_MAX_RESULT_SCALE, scale));
    RoundedIs(num, scale, s);
    res := RoundAndStore(num, s);
  }

  method RoundAndStore(num: Numeric, s: int) returns (res: Numeric)
    requires num.sign != NaN
    ensures res == AtStored(WithSign(num.Magnitude().Round(s), num.sign == Neg), s)
  {
    var arg := Unpacked(num);
    RoundUnpacked(arg, s, num.Magnitude());
    res := StoreScaled(arg, s, num.Magnitude().Round(s));
  }

  method RoundUnpacked(arg: NumericVar, scale: int, ghost m: Mag)
    requires arg.Spare() && m == arg.Magnitude()
    modifies arg, arg.buf
    ensures arg.Valid() && arg.sign == old(arg.sign) && arg.Magnitude().Is(m.Round(scale), scale)
  {
    var i := arg.weight + scale + 1;
    if i < arg.ndigits {
      if i < 0 {
        arg.ndigits := 0;
        RoundCoarse(m, scale, 0);
        assert arg.Magnitude().digits == m.digits[..0];
      } else {
        ghost var r := CarryRound(arg, i, scale, m, m.Round(scale));
      }
    } else {
      RoundCoarse(m, scale, arg.ndigits);
      assert m.digits[..arg.ndigits] == m.digits;
    }
  }

  lemma HalfUpZero(k: int)
    ensures HalfUp(0, k) == 0
  {
    if k > 0 { RoundDivExact(0, Pow10(k)); }
  }

  lemma TruncatedIs(p: Numeric, scale: int, s: int)
    requires p.Canonical() && s == ClampScale(scale)
    ensures Truncated(p, scale) == AtStored(WithSign(p.Magnitude().At(s), p.sign == Neg), s)
  {
    CutSignedIs(p, s, CutSigned(p.Value(), p.rscale - s));
  }

  method NumericTrunc(num: Numeric, scale: int) returns (res: Numeric)
    requires Stored(num)
    ensures res == Truncated(num, scale)
    ensures IsNaN(num) ==> res == Numeric(0, 0, NaN, 0, [])
    ensures !IsNaN(num) ==> res.rscale == res.dscale == if scale < 0 then 0 else if scale > 1000 then 1000 else scale
  {
    if IsNaN(num) { return NUMERIC_NAN; }
    var s := Min(NUMERIC_MAX_RESULT_SCALE, Max(-NUMERIC_MAX_RESULT_SCALE, scale));
    TruncatedIs(num, scale, s);
    res := CutAndStore(num, s);
  }

  method CutAndStore(num: Numeric, s: int) returns (res: Numeric)
    requires num.sign != NaN
    ensures res == AtStored(WithSign(num.Magnitude().At(s), num.sign == Neg), s)
  {
    var arg := Unpacked(num);
    arg.ndigits := Min(arg.ndigits, Max(0, arg.weight + s + 1));
    KeptDigits(num.Magnitude(), s, arg.ndigits);
    assert arg.Magnitude().digits == num.Magnitude().digits[..arg.ndigits];
    res := StoreScaled(arg, s, num.Magnitude().At(s));
  }

  // ---------- apply_typmod and numeric() ----------

  /** n units of 10^-scale have more than precision digits. */
  predicate Overflows(n: nat, precision: int)
  {
    if precision < 0 then n > 0 else n >= Pow10(precision)
  }

  /** The true weight is the order of size, however many zeros lead. */
  lemma LeadingAt(m: Mag, n: nat, s: int, i: nat)
    requires m.Is(n, s) && i <= |m.digits| && (forall k :: 0 <= k < i ==> m.digits[k] == 0)
    requires i < |m.digits| ==> m.digits[i] != 0
    ensures i == |m.digits| ==> n == 0
    ensures i < |m.digits| ==> m.weight - i + s >= 0 && Pow10(m.weight - i + s) <= n < Pow10(m.weight - i + s + 1)
  {
    if i == |m.digits| {
      AllZero(m, s);
    } else {
      var d, w := m.digits[i..], m.weight - i + s;
      PrefixShift(m.digits, d, i, w + 1);
      LeadBound(d, w + 1);
      PrefixBound(d, w + 1);
    }
  }

  /** Comparing the weight with precision - scale decides the overflow. */
  lemma OverflowAt(n: nat, w: int, s: int, precision: int)
    requires w + s >= 0 && Pow10(w + s) <= n < Pow10(w + s + 1)
    ensures Overflows(n, precision) <==> w >= precision - s
  {
    if precision >= 0 {
      if w + s >= precision { Pow10Mono(precision, w + s); } else { Pow10Mono(w + s + 1, precision); }
    }
  }

  lemma NoOverflow(m: Mag, n: nat, s: int, precision: int)
    requires m.Is(n, s) && m.weight < precision - s
    ensures !Overflows(n, precision)
  {
    if m.weight + s + 1 > 0 {
      PrefixBound(m.digits, m.weight + s + 1);
      Pow10Mono(m.weight + s + 1, precision);
    }
  }

  /** The overflow check of apply_typmod: the weight, less the leading zeros not yet stripped. */
  method CheckOverflow(v: NumericVar, ghost m: Mag, ghost n: nat, scale: int, precision: int) returns (overflow: bool)
    requires v.Valid() && m == v.Magnitude() && m.Is(n, scale)
    ensures overflow <==> Overflows(n, precision)
    ensures overflow <==> n > 0 && (precision < 0 || n >= Pow10(precision))
  {
    var maxweight := precision - scale;
    if v.weight < maxweight {
      NoOverflow(m, n, scale, precision);
      return false;
    }
    var tweight, i := v.weight, 0;
    while i < v.ndigits && v.buf[v.start + i] == 0
      invariant 0 <= i <= v.ndigits && tweight == v.weight - i
      invariant forall k :: 0 <= k < i ==> m.digits[k] == 0
    {
      i, tweight := i + 1, tweight - 1;
    }
    LeadingAt(m, n, scale, i);
    if i < v.ndigits { OverflowAt(n, tweight, scale, precision); }
    overflow := tweight >= maxweight && i < v.ndigits;
    assert i == v.ndigits ==> !Overflows(0, precision);
  }

  method ApplyTypmod(v: NumericVar, precision: int, scale: int, ghost m: Mag, ghost x: nat)
    returns (ex: DecimalException)
    requires v.Spare() && v.sign != NaN && m == v.Magnitude() && x == m.Round(scale)
    modifies v, v.buf
    ensures ex == if Overflows(x, precision) then NumericOverflow else NoError
    ensures ex != NoError <==> x > 0 && (precision < 0 || x >= Pow10(precision))
    ensures ex != NoError ==> v.sign == NaN && v.buf == null
    ensures ex == NoError ==>
              v.Valid() && v.sign == old(v.sign) && v.Magnitude().Is(x, scale) && v.rscale == scale && v.dscale == scale
  {
    ghost var r := RoundTo(v, scale, m, x);
    var overflow := CheckOverflow(v, r, x, scale, precision);
    if overflow {
      ex := NumericOverflow;
      v.FreeVar();
    } else {
      ex := NoError;
      SetScales(v, scale, r);
    }
  }

  method SetScales(v: NumericVar, scale: int, ghost m: Mag)
    requires v.Valid() && m == v.Magnitude()
    modifies v`rscale, v`dscale
    ensures v.Valid() && v.Magnitude() == m && v.rscale == scale && v.dscale == scale
  {
    v.rscale := scale;
    v.dscale := scale;
  }

  /** What numeric() computes: the number rounded to scale, or an overflow. */
  function Fitted(p: Numeric, precision: int, scale: int): (Numeric, DecimalException)
  {
    var n := HalfAway(p.Value(), p.rscale - scale);
    if IsNaN(p) then (NUMERIC_NAN, NoError)
    else if Overflows(Abs(n), precision) then (NUMERIC_NAN, NumericOverflow)
    else (Encode(n, scale, scale), NoError)
  }

  lemma FittedAs(p: Numeric, precision: int, scale: int, h: int)
    requires p.sign != NaN && h == HalfAway(p.Value(), p.rscale - scale)
    ensures Fitted(p, precision, scale) == if Overflows(Abs(h), precision) then (NUMERIC_NAN, NumericOverflow)
                                           else (Encode(h, scale, scale), NoError)
  {}

  lemma FittedIs(p: Numeric, precision: int, scale: int, n: nat)
    requires p.Canonical() && n == p.Magnitude().Round(scale)
    ensures Fitted(p, precision, scale) == if Overflows(n, precision) then (NUMERIC_NAN, NumericOverflow)
                                           else (Encode(WithSign(n, p.sign == Neg), scale, scale), NoError)
  {
    var h := HalfAway(p.Value(), p.rscale - scale);
    assert h == WithSign(n, p.sign == Neg) by { HalfAwayIs(p, scale, h); }
    FittedAs(p, precision, scale, h);
  }

  lemma NormRescaled(x: nat, r: int, s: int)
    requires r <= s
    ensures Norm(x * Pow10(s - r), s) == Norm(x, r)
  {
    NormIs(x, r);
    IsUp(Norm(x, r), x, r, s);
    NormUnique(Norm(x, r), x * Pow10(s - r), s);
  }

  lemma SignOfMultiple(x: int, k: nat)
    requires k > 0
    ensures Abs(x * k) == Abs(x) * k && (x * k < 0 <==> x < 0)
  {
    if x < 0 { MulMono(1, -x, k); }
  }

  /** The fast path: a number that fits keeps its digits, whatever its scale fields say. */
  lemma Rescaled(p: Numeric, scale: int, x: int)
    requires p.Canonical() && p.rscale <= scale && x == p.Value()
    ensures p.(rscale := ToUint16(scale), dscale := ToUint14(scale))
         == Encode(x * Pow10(scale - p.rscale), scale, scale)
  {
    NormRescaled(Abs(x), p.rscale, scale);
    SignOfMultiple(x, Pow10(scale - p.rscale));
    EncodeDecode(p);
  }

  lemma FastPath(p: Numeric, precision: int, scale: int)
    requires p.Canonical() && p.weight < precision - scale && p.rscale <= scale
    ensures Fitted(p, precision, scale) == (p.(rscale := ToUint16(scale), dscale := ToUint14(scale)), NoError)
  {
    var n := p.Value() * Pow10(scale - p.rscale);
    assert HalfAway(p.Value(), p.rscale - scale) == n;
    Rescaled(p, scale, p.Value());
    var m := p.Magnitude();
    IsUp(m, m.At(p.rscale), p.rscale, scale);
    assert Abs(n) == m.At(scale);
    NoOverflow(m, Abs(n), scale, precision);
  }

  method NumericTypmod(num: Numeric, precision: int, scale: int) returns (res: Numeric, ex: DecimalException)
    requires Stored(num)
    ensures (res, ex) == Fitted(num, precision, scale)
    ensures IsNaN(num) ==> res == Numeric(0, 0, NaN, 0, []) && ex == NoError
    ensures !IsNaN(num) ==>
              var n := HalfAway(num.Value(), num.rscale - scale);
              if n != 0 && (precision < 0 || Abs(n) >= Pow10(precision))
              then res == Numeric(0, 0, NaN, 0, []) && ex == NumericOverflow
              else res == Encode(n, scale, scale) && ex == NoError
  {
    if IsNaN(num) { return NUMERIC_NAN, NoError; }
    var maxweight := precision - scale;
    if num.weight < maxweight && scale >= num.rscale {
      FastPath(num, precision, scale);
      return num.(rscale := ToUint16(scale), dscale := ToUint14(scale)), NoError;
    }
    FittedIs(num, precision, scale, num.Magnitude().Round(scale));
    res, ex := SlowPath(num, precision, scale, num.Magnitude().Round(scale));
  }

  method SlowPath(num: Numeric, precision: int, scale: int, ghost n: nat) returns (res: Numeric, ex: DecimalException)
    requires num.sign != NaN && n == num.Magnitude().Round(scale)
    ensures Overflows(n, precision) ==> res == NUMERIC_NAN && ex == NumericOverflow
    ensures !Overflows(n, precision) ==> res == Encode(WithSign(n, num.sign == Neg), scale, scale) && ex == NoError
  {
    var v := Unpacked(num);
    ex := ApplyTypmod(v, precision, scale, num.Magnitude(), n);
    res := MakeResult(v);
  }

  // ---------- what rounding means, and that doing it again changes nothing ----------

  /** HalfAway gives the nearest whole number of units, and the one further from zero on a tie. */
  lemma HalfAwayNearest(n: int, k: nat, q: int)
    requires q == HalfAway(n, k)
    ensures (n >= 0 ==> q >= 0) && (n <= 0 ==> q <= 0)
    ensures -(Pow10(k) as int) <= 2 * (Abs(n) - Abs(q) * Pow10(k)) < Pow10(k)
  {
    var x, u := Abs(n), Pow10(k);
    HalfUpZero(k);
    if k == 0 {
      assert u == 1 && x * Pow10(0) == x;
    } else {
      RoundDivBounds(x, u);
    }
  }

  lemma CutDrops(x: nat, k: nat, u: nat, q: nat)
    requires u == Pow10(k) && q == Cut(x, k)
    ensures 0 <= x - q * u < u
  {
    if k == 0 {
      assert u == 1 && x * Pow10(0) == x;
    } else {
    }
  }

  /** Within the overflow bound, numeric(p, precision, s) is numeric_round(p, s) byte for byte. */
  lemma TypmodRounds(p: Numeric, precision: int, scale: int)
    requires p.Canonical() && 0 <= scale <= NUMERIC_MAX_DISPLAY_SCALE
    ensures Fitted(p, precision, scale) == if Overflows(Abs(HalfAway(p.Value(), p.rscale - scale)), precision)
                                           then (NUMERIC_NAN, NumericOverflow) else (Rounded(p, scale), NoError)
  {
    var n := HalfAway(p.Value(), p.rscale - scale);
    assert CutSigned(n, 0) == n by { assert Abs(n) * Pow10(0) == Abs(n); }
  }

  /** A whole number of units 10^-s stays put when it is stored, read back and brought to that scale again. */
  lemma StoredAgain(n: int, s: int, v: int)
    requires v == CutSigned(n, s - StoredScale(s))
    ensures CutSigned(HalfAway(v, StoredScale(s) - s), s - StoredScale(s)) == v
    ensures CutSigned(CutSigned(v, StoredScale(s) - s), s - StoredScale(s)) == v
  {
    var k := StoredScale(s) - s;
    CutZero(k);
    CutZero(-k);
    HalfUpZero(k);
    if k > 0 { BackUp(Abs(n), k); } else { BackDown(Abs(v), -k); }
  }

  lemma BackUp(x: nat, k: nat)
    requires k > 0
    ensures HalfUp(x * Pow10(k), k) == x && Cut(x * Pow10(k), k) == x && Cut(x, -(k as int)) == x * Pow10(k)
  {
    RoundDivExact(x, Pow10(k));
    DivUnique(x * Pow10(k), Pow10(k), x, 0);
  }

  lemma BackDown(x: nat, k: nat)
    ensures Cut(HalfUp(x, -(k as int)), k) == x && Cut(Cut(x, -(k as int)), k) == x
  {
    if k == 0 {
      assert x * Pow10(0) == x;
    } else {
      DivUnique(x * Pow10(k), Pow10(k), x, 0);
    }
  }

  /** A number below 10^(w+1) has weight w at most. */
  lemma WeightBelow(n: nat, s: int, w: int)
    requires n == 0 || (w + s + 1 >= 0 && n < Pow10(w + s + 1))
    ensures Norm(n, s).weight <= Max(0, w)
  {
    NormIs(n, s);
    StrippedSize(Norm(n, s), n, s);
    if n > 0 && w < Norm(n, s).weight { Pow10Mono(w + s + 1, Norm(n, s).weight + s); }
  }

  /** Cutting off digits does not raise the weight, and rounding raises it by one at most. */
  lemma CutWeight(n: nat, s: int, t: int, w: int)
    requires Norm(n, s).weight <= w && 0 <= w
    ensures Norm(Cut(n, s - t), t).weight <= w
  {
    var m := Norm(n, s);
    NormIs(n, s);
    AtCut(m, n, s, t);
    if m.weight + t + 1 >= 0 { PrefixBound(m.digits, m.weight + t + 1); }
    WeightBelow(m.At(t), t, m.weight);
  }

  lemma RoundWeight(m: Mag, s: int, w: int)
    requires m.weight < w && 0 <= w
    ensures Norm(m.Round(s), s).weight <= w && Norm(m.At(s), s).weight <= w
  {
    if m.weight + s + 1 >= 0 {
      PrefixBound(m.digits, m.weight + s + 1);
      Pow10Mono(m.weight + s + 1, m.weight + s + 2);
    }
    WeightBelow(m.Round(s), s, m.weight + 1);
    WeightBelow(m.At(s), s, m.weight);
  }

  lemma StoredInRange(n: int, s: int)
    requires Norm(Abs(n), s).weight <= 0x7FFF
    ensures InRange(CutSigned(n, s - StoredScale(s)), StoredScale(s), StoredScale(s))
  {
    var t := StoredScale(s);
    CutWeight(Abs(n), s, t, 0x7FFF);
    CutZero(s - t);
    assert Abs(CutSigned(n, s - t)) == Cut(Abs(n), s - t);
    NormIs(Cut(Abs(n), s - t), t);
    StrippedSize(Norm(Cut(Abs(n), s - t), t), Cut(Abs(n), s - t), t);
  }

  lemma AtStoredIs(h: int, s: int, t: nat, v: int)
    requires t == StoredScale(s) && v == CutSigned(h, s - t)
    ensures AtStored(h, s) == Encode(v, t, t)
  {}

  lemma RoundedAs(r: Numeric, x: int, scale: int, s: int, h: int, t: nat, v: int)
    requires r.sign != NaN && x == r.Value() && s == ClampScale(scale) && h == HalfAway(x, r.rscale - s)
             && t == StoredScale(s)
    requires v == CutSigned(h, s - t)
    ensures Rounded(r, scale) == Encode(v, t, t)
  {
    AtStoredIs(h, s, t, v);
  }

  lemma TruncatedAs(r: Numeric, x: int, scale: int, s: int, c: int, t: nat, v: int)
    requires r.sign != NaN && x == r.Value() && s == ClampScale(scale) && c == CutSigned(x, r.rscale - s)
             && t == StoredScale(s)
    requires v == CutSigned(c, s - t)
    ensures Truncated(r, scale) == Encode(v, t, t)
  {
    AtStoredIs(c, s, t, v);
  }

  /** What is stored at a scale is a fixed point of both routines at that scale. */
  lemma StoredFixed(n: int, scale: int, s: int, r: Numeric)
    requires s == ClampScale(scale) && Norm(Abs(n), s).weight <= 0x7FFF && r == AtStored(n, s)
    ensures LeftAlone(r, scale)
  {
    var t := StoredScale(s);
    var v := CutSigned(n, s - t);
    assert r.Canonical() && r.Value() == v && r.rscale == t && r == Encode(v, t, t) by { StoredIs(n, s, r, v, t); }
    StoredAgain(n, s, v);
    RoundedAs(r, v, scale, s, HalfAway(v, t - s), t, v);
    TruncatedAs(r, v, scale, s, CutSigned(v, t - s), t, v);
  }

  /** Both routines leave r alone at this scale. */
  ghost predicate LeftAlone(r: Numeric, scale: int)
  {
    r.Canonical() && Rounded(r, scale) == r && Truncated(r, scale) == r
  }

  lemma RoundStays(p: Numeric, scale: int, s: int, r: Numeric)
    requires p.Canonical() && RoundFits(p, scale) && s == ClampScale(scale) && r == Rounded(p, scale)
    ensures LeftAlone(r, scale)
  {
    RoundedIs(p, scale, s);
    StoredFixed(WithSign(p.Magnitude().Round(s), p.sign == Neg), scale, s, r);
  }

  lemma CutStays(p: Numeric, scale: int, s: int, r: Numeric)
    requires p.Canonical() && s == ClampScale(scale) && r == Truncated(p, scale)
    ensures LeftAlone(r, scale)
  {
    TruncatedIs(p, scale, s);
    TruncateFits(p, s);
    StoredFixed(WithSign(p.Magnitude().At(s), p.sign == Neg), scale, s, r);
  }

  /** numeric_round and numeric_trunc are idempotent, and each leaves alone what the other returned. */
  lemma RoundSettles(p: Numeric, scale: int)
    requires p.Canonical()
    ensures RoundFits(p, scale) ==> LeftAlone(Rounded(p, scale), scale)
    ensures LeftAlone(Truncated(p, scale), scale)
  {
    if RoundFits(p, scale) { RoundStays(p, scale, ClampScale(scale), Rounded(p, scale)); }
    CutStays(p, scale, ClampScale(scale), Truncated(p, scale));
  }

  // ---------- the number that is stored ----------

  /** x / 10^ex and y / 10^ey are the same number. */
  ghost predicate SameNumber(x: int, ex: int, y: int, ey: int)
  {
    x * Pow10(Max(ey - ex, 0)) == y * Pow10(Max(ex - ey, 0))
  }

  lemma CutKeepsIff(n: int, s: int, t: int, v: int)
    requires v == CutSigned(n, s - t)
    ensures SameNumber(v, t, n, s) <==> s <= t || Abs(n) % Pow10(s - t) == 0
  {
    CutZero(s - t);
    if s > t {
      MultipleIff(n, Pow10(s - t), v);
    } else {
      SignOfMultiple(n, Pow10(t - s));
    }
  }

  /** n divided by u toward zero and multiplied back. */
  lemma MultipleIff(n: int, u: nat, v: int)
    requires u > 0 && Abs(v) == Abs(n) / u && (v < 0 ==> n < 0) && (v > 0 ==> n > 0)
    ensures v * u == n * 1 <==> Abs(n) % u == 0
  {
    SignOfMultiple(v, u);
    assert Abs(n) == Abs(n) / u * u + Abs(n) % u;
  }

  lemma StoredIs(n: int, s: int, q: Numeric, v: int, t: nat)
    requires t == StoredScale(s) && v == CutSigned(n, s - t) && q == AtStored(n, s) && Norm(Abs(n), s).weight <= 0x7FFF
    ensures q.Canonical() && q.rscale == t && q.dscale == t && q.Value() == v && q == Encode(v, t, t)
  {
    AtStoredIs(n, s, t, v);
    StoredInRange(n, s);
    DecodeEncode(v, t, t);
  }

  /** The rounded number fits the weight field.  Only from the largest weight can a carry overflow it. */
  ghost predicate RoundFits(p: Numeric, scale: int)
  {
    var s := Min(2000, Max(-2000, scale));
    Norm(p.Magnitude().Round(s), s).weight <= 0x7FFF
  }

  lemma RoundFitsBelow(p: Numeric, scale: int)
    requires p.weight < 0x7FFF
    ensures RoundFits(p, scale)
  {
    RoundWeight(p.Magnitude(), ClampScale(scale), 0x7FFF);
  }

  lemma TruncateFits(p: Numeric, s: int)
    ensures Norm(p.Magnitude().At(s), s).weight <= 0x7FFF
  {
    var m := p.Magnitude();
    if m.weight + s + 1 >= 0 { PrefixBound(m.digits, m.weight + s + 1); }
    WeightBelow(m.At(s), s, m.weight);
  }

  lemma HalfAwayIs(p: Numeric, s: int, h: int)
    requires p.Canonical() && h == HalfAway(p.Value(), p.rscale - s)
    ensures h == WithSign(p.Magnitude().Round(s), p.sign == Neg)
  {
    RoundIsHalfUp(p.Magnitude(), p.Magnitude().At(p.rscale), p.rscale, s);
    HalfUpZero(p.rscale - s);
  }

  lemma CutSignedIs(p: Numeric, s: int, c: int)
    requires p.Canonical() && c == CutSigned(p.Value(), p.rscale - s)
    ensures c == WithSign(p.Magnitude().At(s), p.sign == Neg)
  {
    AtCut(p.Magnitude(), p.Magnitude().At(p.rscale), p.rscale, s);
    CutZero(p.rscale - s);
  }

  lemma HalfAwayFits(p: Numeric, scale: int, s: int, h: int)
    requires p.Canonical() && RoundFits(p, scale) && s == ClampScale(scale) && h == HalfAway(p.Value(), p.rscale - s)
    ensures Norm(Abs(h), s).weight <= 0x7FFF
  {
    HalfAwayIs(p, s, h);
  }

  lemma RoundedValue(p: Numeric, scale: int, s: int, h: int, q: Numeric, t: nat, v: int)
    requires p.Canonical() && RoundFits(p, scale) && q == Rounded(p, scale) && s == ClampScale(scale)
    requires h == HalfAway(p.Value(), p.rscale - s) && t == StoredScale(s) && v == CutSigned(h, s - t)
    ensures q.Canonical() && q.rscale == t && q.Value() == v
  {
    HalfAwayFits(p, scale, s, h);
    StoredIs(h, s, q, v, t);
  }

  lemma TruncatedValue(p: Numeric, scale: int, s: int, c: int, q: Numeric, t: nat, v: int)
    requires p.Canonical() && q == Truncated(p, scale) && s == ClampScale(scale)
    requires c == CutSigned(p.Value(), p.rscale - s) && t == StoredScale(s) && v == CutSigned(c, s - t)
    ensures q.Canonical() && q.rscale == t && q.Value() == v
  {
    assert Norm(Abs(c), s).weight <= 0x7FFF by {
      CutSignedIs(p, s, c);
      TruncateFits(p, s);
    }
    StoredIs(c, s, q, v, t);
  }

  lemma RoundedIffAt(p: Numeric, scale: int, s: int, h: int, q: Numeric, v: int, t: nat)
    requires p.Canonical() && RoundFits(p, scale) && s == ClampScale(scale) && h == HalfAway(p.Value(), p.rscale - s)
    requires q == Rounded(p, scale) && v == q.Value() && t == StoredScale(s)
    ensures q.Canonical() && q.rscale == t
    ensures SameNumber(v, t, h, s) <==>
              s <= NUMERIC_MAX_DISPLAY_SCALE || Abs(h) % Pow10(s - NUMERIC_MAX_DISPLAY_SCALE) == 0
  {
    RoundedValue(p, scale, s, h, q, t, CutSigned(h, s - t));
    CutKeepsIff(h, s, t, v);
  }

  lemma TruncatedIffAt(p: Numeric, scale: int, s: int, c: int, q: Numeric, v: int, t: nat)
    requires p.Canonical() && s == ClampScale(scale) && c == CutSigned(p.Value(), p.rscale - s)
    requires q == Truncated(p, scale) && v == q.Value() && t == StoredScale(s)
    ensures q.Canonical() && q.rscale == t
    ensures SameNumber(v, t, c, s) <==>
              s <= NUMERIC_MAX_DISPLAY_SCALE || Abs(c) % Pow10(s - NUMERIC_MAX_DISPLAY_SCALE) == 0
  {
    TruncatedValue(p, scale, s, c, q, t, CutSigned(c, s - t));
    CutKeepsIff(c, s, t, v);
  }

  lemma NoDigitsPast(x: int, r: nat, s: int, n: int)
    requires r <= NUMERIC_MAX_DISPLAY_SCALE && (n == HalfAway(x, r - s) || n == CutSigned(x, r - s))
    ensures s <= NUMERIC_MAX_DISPLAY_SCALE || Abs(n) % Pow10(s - NUMERIC_MAX_DISPLAY_SCALE) == 0
  {
    if s > NUMERIC_MAX_DISPLAY_SCALE { WholeMultiple(Abs(x), s - r, s - NUMERIC_MAX_DISPLAY_SCALE); }
  }

  lemma WholeMultiple(x: nat, a: nat, b: nat)
    requires b <= a
    ensures x * Pow10(a) % Pow10(b) == 0
  {
    Pow10Add(a - b, b);
    MulAssoc(x, Pow10(a - b), Pow10(b));
    DivUnique(x * Pow10(a), Pow10(b), x * Pow10(a - b), 0);
  }

  /** The condition can fail: one unit of 10^-1500, rounded or truncated at 1500, is stored as zero. */
  lemma RoundedMiss(p: Numeric)
    requires p == Encode(1, 1500, 1500)
    ensures p.Canonical() && p.Value() == 1 && p.rscale == 1500
    ensures Rounded(p, 1500) == Encode(0, 1000, 1000) == Truncated(p, 1500) && !SameNumber(0, 1000, 1, 1500)
  {
    WeightOf(1, 1500, -1500);
    DecodeEncode(1, 1500, 1500);
    Pow10Mono(0, 500);
    CutBelowUnit(1, 500);
    RoundedAs(p, 1, 1500, 1500, 1, 1000, 0);
    TruncatedAs(p, 1, 1500, 1500, 1, 1000, 0);
  }

  lemma CutBelowUnit(n: nat, k: nat)
    requires n < Pow10(k)
    ensures CutSigned(n, k) == 0
  {
    if k > 0 { DivUnique(n, Pow10(k), 0, n); }
  }

  /** x / 10^r against v / 10^t, v being y units of 10^-e. */
  lemma DropScaled(x: nat, r: nat, e: int, t: nat, y: nat, v: nat)
    requires t == Max(0, e) && v == y * Pow10(t - e) && (r < e ==> y == x * Pow10(e - r))
    ensures r >= e ==> x * Pow10(t) - v * Pow10(r) == (x - y * Pow10(r - e)) * Pow10(t)
    ensures r >= e ==> Pow10(r + t - e) == Pow10(r - e) * Pow10(t)
    ensures r < e ==> x * Pow10(t) - v * Pow10(r) == 0
  {
    if r >= e {
      Pow10Add(r - e, t);
      Pow10Add(t - e, r);
      MulAssoc(y, Pow10(t - e), Pow10(r));
      MulAssoc(y, Pow10(r - e), Pow10(t));
      Distribute(x, -(y * Pow10(r - e)), Pow10(t));
    } else {
      Pow10Add(e - r, r);
      MulAssoc(x, Pow10(e - r), Pow10(r));
      assert v == y by { assert y * Pow10(0) == y; }
    }
  }

  lemma HalfUnits(d: int, u: int, k: nat)
    requires k > 0 && -u <= 2 * d < u
    ensures -(u * k) <= 2 * (d * k) < u * k
  {
    MulMono(-u, 2 * d, k);
    MulMono(2 * d + 1, u, k);
    Distribute(2 * d, 1, k);
    MulAssoc(2, d, k);
  }

  lemma UnderUnit(d: int, u: nat, k: nat)
    requires k > 0 && 0 <= d < u
    ensures 0 <= d * k < u * k
  {
    MulMono(0, d, k);
    MulMono(d + 1, u, k);
    Distribute(d, 1, k);
  }

  /** v / 10^t is the multiple of 10^-s nearest to x / 10^r, the one further from zero on a tie, and on the same side
      of zero. */
  ghost predicate Nearest(x: int, r: nat, v: int, t: nat, s: int)
  {
    && t == Max(0, s) && Abs(v) % Pow10(t - s) == 0 && (v > 0 ==> x > 0) && (v < 0 ==> x < 0)
    && -(Pow10(r + t - s) as int) <= 2 * (Abs(x) * Pow10(t) - Abs(v) * Pow10(r)) < Pow10(r + t - s)
  }

  /** v / 10^t is the largest multiple of 10^-s not beyond x / 10^r, and on the same side of zero. */
  ghost predicate Toward(x: int, r: nat, v: int, t: nat, s: int)
  {
    && t == Max(0, s) && Abs(v) % Pow10(t - s) == 0 && (v > 0 ==> x > 0) && (v < 0 ==> x < 0)
    && 0 <= Abs(x) * Pow10(t) - Abs(v) * Pow10(r) < Pow10(r + t - s)
  }

  /** A number of units 10^-s, for s up to the display limit, is stored as it is. */
  lemma StoredUnits(h: int, s: int, t: nat, v: int)
    requires s <= NUMERIC_MAX_DISPLAY_SCALE && t == StoredScale(s) && v == CutSigned(h, s - t)
    ensures t == Max(0, s) && Abs(v) == Abs(h) * Pow10(t - s) && Abs(v) % Pow10(t - s) == 0 && (v < 0 ==> h < 0)
            && (v > 0 ==> h > 0)
  {
    SignOfMultiple(h, Pow10(t - s));
    CutZero(s - t);
    DivUnique(Abs(v), Pow10(t - s), Abs(h), 0);
  }

  lemma NearestUnits(x: int, r: nat, s: int, t: nat, h: int, v: int)
    requires h == HalfAway(x, r - s) && t == Max(0, s) && Abs(v) == Abs(h) * Pow10(t - s)
    ensures (h > 0 ==> x > 0) && (h < 0 ==> x < 0)
    ensures -(Pow10(r + t - s) as int) <= 2 * (Abs(x) * Pow10(t) - Abs(v) * Pow10(r)) < Pow10(r + t - s)
  {
    HalfUpZero(r - s);
    DropScaled(Abs(x), r, s, t, Abs(h), Abs(v));
    if r >= s {
      HalfAwayNearest(x, r - s, h);
      HalfUnits(Abs(x) - Abs(h) * Pow10(r - s), Pow10(r - s), Pow10(t));
    }
  }

  lemma RoundedNearestAt(p: Numeric, scale: int, s: int, x: int, r: nat, q: Numeric, v: int, t: nat)
    requires p.Canonical() && RoundFits(p, scale) && s == ClampScale(scale) <= NUMERIC_MAX_DISPLAY_SCALE
    requires x == p.Value() && r == p.rscale && q == Rounded(p, scale) && v == q.Value() && t == Max(0, s)
    ensures q.Canonical() && q.rscale == t && Nearest(x, r, v, t, s)
  {
    var h := HalfAway(x, r - s);
    RoundedValue(p, scale, s, h, q, t, CutSigned(h, s - t));
    StoredUnits(h, s, t, v);
    NearestUnits(x, r, s, t, h, v);
  }

  /** Cutting off at s, and then at the display limit, cuts off at the coarser of the two. */
  lemma TruncatedUnits(p: Numeric, s: int, e: int, v: int, t: nat)
    requires t == StoredScale(s) && e == Min(s, NUMERIC_MAX_DISPLAY_SCALE)
    requires v == CutSigned(WithSign(p.Magnitude().At(s), p.sign == Neg), s - t)
    ensures t == Max(0, e) && Abs(v) == p.Magnitude().At(e) * Pow10(t - e)
  {
    var m := p.Magnitude();
    CutZero(s - t);
    if s > t {
      PrefixDiv(m.digits, m.weight + t + 1, s - t);
      assert m.At(e) * Pow10(0) == m.At(e);
    }
  }

  lemma TowardUnits(x: nat, r: nat, e: int, t: nat, y: nat, v: nat)
    requires t == Max(0, e) && y == Cut(x, r - e) && v == y * Pow10(t - e)
    ensures 0 <= x * Pow10(t) - v * Pow10(r) < Pow10(r + t - e) && v % Pow10(t - e) == 0
  {
    DivUnique(v, Pow10(t - e), y, 0);
    DropScaled(x, r, e, t, y, v);
    if r >= e {
      CutDrops(x, r - e, Pow10(r - e), y);
      UnderUnit(x - y * Pow10(r - e), Pow10(r - e), Pow10(t));
    }
  }

  lemma SignKept(x: int, k: int, l: int, v: int)
    requires v == CutSigned(CutSigned(x, k), l)
    ensures (v > 0 ==> x > 0) && (v < 0 ==> x < 0)
  {
    CutZero(k);
    CutZero(l);
  }

  lemma TruncatedTowardAt(p: Numeric, scale: int, e: int, x: int, r: nat, q: Numeric, v: int, t: nat)
    requires p.Canonical() && e == Min(ClampScale(scale), NUMERIC_MAX_DISPLAY_SCALE)
    requires x == p.Value() && r == p.rscale && q == Truncated(p, scale) && v == q.Value() && t == Max(0, e)
    ensures q.Canonical() && q.rscale == t && Toward(x, r, v, t, e)
  {
    var s := ClampScale(scale);
    var c := CutSigned(x, r - s);
    TruncatedValue(p, scale, s, c, q, t, CutSigned(c, s - t));
    TowardOf(p, s, e, x, r, c, v, t);
  }

  lemma TowardOf(p: Numeric, s: int, e: int, x: int, r: nat, c: int, v: int, t: nat)
    requires p.Canonical() && x == p.Value() && r == p.rscale && e == Min(s, NUMERIC_MAX_DISPLAY_SCALE)
             && t == StoredScale(s)
    requires c == CutSigned(x, r - s) && v == CutSigned(c, s - t)
    ensures Toward(x, r, v, t, e)
  {
    var y := Cut(Abs(x), r - e);
    SignKept(x, r - s, s - t, v);
    TruncatedMagnitude(p, s, e, x, r, c, y, v, t);
    TowardUnits(Abs(x), r, e, t, y, Abs(v));
  }

  lemma TruncatedMagnitude(p: Numeric, s: int, e: int, x: int, r: nat, c: int, y: nat, v: int, t: nat)
    requires p.Canonical() && x == p.Value() && r == p.rscale && e == Min(s, NUMERIC_MAX_DISPLAY_SCALE)
             && t == StoredScale(s)
    requires c == CutSigned(x, r - s) && v == CutSigned(c, s - t) && y == Cut(Abs(x), r - e)
    ensures t == Max(0, e) && Abs(v) == y * Pow10(t - e)
  {
    assert c == WithSign(p.Magnitude().At(s), p.sign == Neg) by { CutSignedIs(p, s, c); }
    assert y == p.Magnitude().At(e) by { AtCut(p.Magnitude(), Abs(x), r, e); }
    TruncatedUnits(p, s, e, v, t);
  }

  // ---------- what numeric_round and numeric_trunc store ----------

  /** The value rounded to s decimals, half away from zero, in units of 10^-s. */
  function RoundedTo(p: Numeric, s: int): int { HalfAway(p.Value(), p.rscale - s) }

  /** The value cut off at s decimals, toward zero, in units of 10^-s. */
  function CutTo(p: Numeric, s: int): int { CutSigned(p.Value(), p.rscale - s) }

  /** Scales past 2000 either way count as 2000. */
  lemma ScaleBeyond(p: Numeric, scale: int)
    ensures scale < -2000 ==> Rounded(p, scale) == Rounded(p, -2000) && Truncated(p, scale) == Truncated(p, -2000)
    ensures scale > 2000 ==> Rounded(p, scale) == Rounded(p, 2000) && Truncated(p, scale) == Truncated(p, 2000)
  {}

  /** numeric_round stores the value rounded half away from zero at s, unless that has a digit past the display
      limit. */
  lemma RoundedIff(p: Numeric, scale: int, s: int)
    requires p.Canonical() && RoundFits(p, scale) && s == Min(2000, Max(-2000, scale))
    ensures var q := Rounded(p, scale);
            && q.Canonical() && q.rscale == Min(1000, Max(0, s))
            && (SameNumber(q.Value(), q.rscale, RoundedTo(p, s), s)
                <==> s <= 1000 || Abs(RoundedTo(p, s)) % Pow10(s - 1000) == 0)
  {
    var q := Rounded(p, scale);
    assert s == ClampScale(scale);
    RoundedIffAt(p, scale, s, RoundedTo(p, s), q, q.Value(), StoredScale(s));
  }

  /** And numeric_trunc the value cut off at s, on the same condition. */
  lemma TruncatedIff(p: Numeric, scale: int, s: int)
    requires p.Canonical() && s == Min(2000, Max(-2000, scale))
    ensures var q := Truncated(p, scale);
            && q.Canonical() && q.rscale == Min(1000, Max(0, s))
            && (SameNumber(q.Value(), q.rscale, CutTo(p, s), s)
                <==> s <= 1000 || Abs(CutTo(p, s)) % Pow10(s - 1000) == 0)
  {
    var q := Truncated(p, scale);
    TruncatedIffAt(p, scale, s, CutTo(p, s), q, q.Value(), StoredScale(s));
  }

  /** A number of no more decimals than the display limit meets that condition at every scale. */
  lemma RoundedExact(p: Numeric, scale: int, s: int)
    requires p.Canonical() && RoundFits(p, scale) && p.rscale <= 1000 && s == Min(2000, Max(-2000, scale))
    ensures var q := Rounded(p, scale); SameNumber(q.Value(), q.rscale, RoundedTo(p, s), s)
  {
    RoundedIff(p, scale, s);
    NoDigitsPast(p.Value(), p.rscale, s, RoundedTo(p, s));
  }

  lemma TruncatedExact(p: Numeric, scale: int, s: int)
    requires p.Canonical() && p.rscale <= 1000 && s == Min(2000, Max(-2000, scale))
    ensures var q := Truncated(p, scale); SameNumber(q.Value(), q.rscale, CutTo(p, s), s)
  {
    TruncatedIff(p, scale, s);
    NoDigitsPast(p.Value(), p.rscale, s, CutTo(p, s));
  }

  /** For scales up to 1000, negative ones included, numeric_round stores the nearest multiple of 10^-scale. */
  lemma RoundedNearest(p: Numeric, scale: int)
    requires p.Canonical() && RoundFits(p, scale) && -2000 <= scale <= 1000
    ensures var q := Rounded(p, scale); q.Canonical() && Nearest(p.Value(), p.rscale, q.Value(), q.rscale, scale)
  {
    var q := Rounded(p, scale);
    RoundedNearestAt(p, scale, scale, p.Value(), p.rscale, q, q.Value(), Max(0, scale));
  }

  /** For a finer scale, of the value rounded there, the largest multiple of 10^-1000 not beyond it. */
  lemma RoundedFiner(p: Numeric, scale: int)
    requires p.Canonical() && RoundFits(p, scale) && 1000 <= scale <= 2000
    ensures var q := Rounded(p, scale);
            q.Canonical() && Toward(HalfAway(p.Value(), p.rscale - scale), scale, q.Value(), q.rscale, 1000)
  {
    var q, h := Rounded(p, scale), HalfAway(p.Value(), p.rscale - scale);
    RoundedValue(p, scale, scale, h, q, 1000, CutSigned(h, scale - 1000));
    FinerToward(h, scale, q.Value());
  }

  lemma FinerToward(h: int, s: nat, v: int)
    requires s >= 1000 && v == CutSigned(h, s - 1000)
    ensures Toward(h, s, v, 1000, 1000)
  {
    CutZero(s - 1000);
    assert Abs(v) * Pow10(0) == Abs(v);
    TowardUnits(Abs(h), s, 1000, 1000, Abs(v), Abs(v));
  }

  /** numeric_trunc stores the largest multiple of 10^-scale not beyond the value, 10^-1000 standing for any finer
      unit. */
  lemma TruncatedToward(p: Numeric, scale: int)
    requires p.Canonical() && -2000 <= scale <= 2000
    ensures var q := Truncated(p, scale);
            q.Canonical() && Toward(p.Value(), p.rscale, q.Value(), q.rscale, Min(scale, 1000))
  {
    var q, e := Truncated(p, scale), Min(scale, 1000);
    TruncatedTowardAt(p, scale, e, p.Value(), p.rscale, q, q.Value(), Max(0, e));
  }
}
