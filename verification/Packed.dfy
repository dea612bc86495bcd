/** The packed storage form: two digits to a byte, no leading or trailing zeros. */
module Packed {
  import opened Decimal
  import opened Magnitudes
  import opened Variables
  import opened AddSub

  type int16 = i: int | -0x8000 <= i < 0x8000
  type uint16 = u: int | 0 <= u < 0x1_0000
  type uint14 = u: int | 0 <= u < 0x4000

  /** A data byte: two decimal digits, one in each half. */
  datatype DigitPair = DigitPair(high: digit, low: digit)

  /** The record in storage.  The word n_sign_dscale is given as its two bit fields; varlen is the
      header size plus the number of data bytes. */
  datatype Numeric = Numeric(weight: int16, rscale: uint16, sign: NumericSign, dscale: uint14, data: seq<DigitPair>) {
    function Magnitude(): Mag { Mag(Unpack(data), weight) }

    /** The value times 10^s, cut off toward zero. */
    function Signed(s: int): int { WithSign(Magnitude().At(s), sign == Neg) }

    /** The value in units of 10^-rscale. */
    function Value(): int { Signed(rscale) }

    /** A number stored by the convention of numeric.h: stripped of all leading and trailing
        zeros but a padding one, within its scale, and plain when zero. */
    ghost predicate Canonical()
    {
      sign != NaN && Magnitude().Fits(rscale)
      && (data == [] ==> weight == 0 && sign == Pos)
      && (data != [] ==> data[0].high != 0 && data[|data| - 1] != DigitPair(0, 0))
    }
  }

  const NUMERIC_NAN := Numeric(0, 0, NaN, 0, [])

  function Unpack(data: seq<DigitPair>): seq<digit>
  {
    seq(2 * |data|, k requires 0 <= k < 2 * |data| => if k % 2 == 0 then data[k / 2].high else data[k / 2].low)
  }

  function Pack(d: seq<digit>): (b: seq<DigitPair>)
  {
    seq((|d| + 1) / 2, i requires 0 <= i < (|d| + 1) / 2 => DigitPair(d[2 * i], DigitAt(d, 2 * i + 1)))
  }

  // C conversions to the narrow fields.

  function ToInt16(i: int): int16 { if -0x8000 <= i < 0x8000 then i else (i + 0x8000) % 0x1_0000 - 0x8000 }

  function ToUint16(i: int): uint16 { if 0 <= i < 0x1_0000 then i else i % 0x1_0000 }

  function ToUint14(i: int): uint14 { if 0 <= i < 0x4000 then i else i % 0x4000 }

  function EncodeMag(sign: NumericSign, m: Mag, rscale: int, dscale: int): Numeric
  {
    Numeric(ToInt16(m.weight), ToUint16(rscale), sign, ToUint14(dscale), Pack(m.digits))
  }

  /** The packed form of n / 10^rscale. */
  function Encode(n: int, rscale: int, dscale: int): Numeric
  {
    EncodeMag(if n < 0 then Neg else Pos, Norm(Abs(n), rscale), rscale, dscale)
  }

  /** The number and its scales survive the narrow fields. */
  predicate InRange(n: int, rscale: int, dscale: int)
  {
    0 <= rscale < 0x1_0000 && 0 <= dscale < 0x4000 && -0x8000 <= Norm(Abs(n), rscale).weight < 0x8000
  }

  /** Each field keeps its low bits: 16 with a sign, 16 and 14 without. */
  lemma NarrowFields(i: int)
    ensures ToInt16(i) % 65536 == i % 65536 && ToUint16(i) == i % 65536 && ToUint14(i) == i % 16384
  {}

  /** The high half of byte i is the digit worth 10^(weight - 2i), the low half the next. */
  lemma HighFirst(p: Numeric, i: nat)
    requires i < |p.data|
    ensures p.Magnitude().Digit(p.weight - 2 * i) == p.data[i].high
    ensures p.Magnitude().Digit(p.weight - 2 * i - 1) == p.data[i].low
  {}

  lemma UnpackPack(d: seq<digit>)
    ensures Unpack(Pack(d)) == d + (if |d| % 2 == 0 then [] else [0])
  {
    var u := Unpack(Pack(d));
    forall k | 0 <= k < |u| ensures u[k] == DigitAt(d, k) {
      assert k == 2 * (k / 2) + k % 2;
    }
  }

  /** Unpacking what was packed appends at most one zero digit. */
  lemma PaddedSame(d: seq<digit>, w: int, s: int)
    requires Mag(d, w).Fits(s)
    ensures Mag(Unpack(Pack(d)), w).Is(Mag(d, w).At(s), s)
  {
    UnpackPack(d);
    ZerosAfter(d, if |d| % 2 == 0 then [] else [0], w, s);
  }

  lemma ZerosAfter(d: seq<digit>, z: seq<digit>, w: int, s: int)
    requires Mag(d, w).Fits(s) && forall k :: 0 <= k < |z| ==> z[k] == 0
    ensures Mag(d + z, w).Is(Mag(d, w).At(s), s)
  {
    PrefixShift(d + z, d, 0, w + s + 1);
  }

  // ---------- packing is canonical and lossless ----------

  lemma DataKept(m: Mag, n: nat, s: int, p: Numeric)
    requires m.Canon(n, s) && p.data == Pack(m.digits) && p.weight == m.weight && p.rscale == s
    requires p.sign != NaN && (n == 0 ==> p.sign == Pos)
    ensures p.Canonical() && p.Magnitude().At(s) == n
  {
    PaddedSame(m.digits, m.weight, s);
    StrippedSize(m, n, s);
    if m.digits != [] { LeadAndLast(m.digits); }
  }

  lemma LeadAndLast(d: seq<digit>)
    requires d != [] && d[0] != 0 && d[|d| - 1] != 0
    ensures Pack(d) != [] && Pack(d)[0].high != 0 && Pack(d)[|Pack(d)| - 1] != DigitPair(0, 0)
  {
    var b := Pack(d);
    assert b[|b| - 1] == DigitPair(d[2 * (|b| - 1)], DigitAt(d, 2 * (|b| - 1) + 1));
  }

  lemma DecodeEncode(n: int, rscale: int, dscale: int)
    requires InRange(n, rscale, dscale)
    ensures Encode(n, rscale, dscale).Canonical()
    ensures Encode(n, rscale, dscale).Value() == n
    ensures Encode(n, rscale, dscale).rscale == rscale && Encode(n, rscale, dscale).dscale == dscale
  {
    NormIs(Abs(n), rscale);
    DataKept(Norm(Abs(n), rscale), Abs(n), rscale, Encode(n, rscale, dscale));
  }

  /** Digits without one padding zero. */
  function Unpadded(d: seq<digit>): seq<digit>
  {
    if d != [] && d[|d| - 1] == 0 then d[..|d| - 1] else d
  }

  lemma UnpaddedSame(d: seq<digit>, w: int, s: int)
    requires Mag(d, w).Fits(s)
    ensures Mag(Unpadded(d), w).Is(Mag(d, w).At(s), s)
  {
    PrefixShift(d, Unpadded(d), 0, w + s + 1);
  }

  lemma LastByte(data: seq<DigitPair>)
    requires data != [] && data[0].high != 0 && data[|data| - 1] != DigitPair(0, 0)
    ensures var d := Unpack(data); |d| >= 2 && d[0] != 0 && (d[|d| - 1] == 0 ==> d[|d| - 2] != 0)
  {
    var d, last := Unpack(data), data[|data| - 1];
    assert d[2 * (|data| - 1)] == last.high && d[2 * (|data| - 1) + 1] == last.low;
  }

  lemma TrimmedCanon(p: Numeric)
    requires p.Canonical()
    ensures Mag(Unpadded(Unpack(p.data)), p.weight).Canon(Abs(p.Value()), p.rscale)
    ensures p.Value() == 0 <==> p.data == []
  {
    var d := Unpack(p.data);
    if p.data != [] { LastByte(p.data); }
    UnpaddedSame(d, p.weight, p.rscale);
    StrippedSize(Mag(Unpadded(d), p.weight), p.Magnitude().At(p.rscale), p.rscale);
  }

  lemma EncodeDecode(p: Numeric)
    requires p.Canonical()
    ensures Encode(p.Value(), p.rscale, p.dscale) == p
    ensures InRange(p.Value(), p.rscale, p.dscale)
  {
    TrimmedCanon(p);
    NormUnique(Mag(Unpadded(Unpack(p.data)), p.weight), Abs(p.Value()), p.rscale);
    PackUnpack(p.data);
  }

  /** Equal value and scales mean equal bytes. */
  lemma CanonicalUnique(p: Numeric, q: Numeric)
    requires p.Canonical() && q.Canonical()
    requires p.Value() == q.Value() && p.rscale == q.rscale && p.dscale == q.dscale
    ensures p == q
  {
    EncodeDecode(p);
    EncodeDecode(q);
  }

  lemma PackUnpack(data: seq<DigitPair>)
    ensures Pack(Unpadded(Unpack(data))) == data
  {
    var u := Unpadded(Unpack(data));
    UnpaddedLength(data);
    forall i | 0 <= i < |data| ensures Pack(u)[i] == data[i] {
      PairAt(data, i);
      assert Pack(u)[i] == DigitPair(u[2 * i], DigitAt(u, 2 * i + 1));
    }
  }

  lemma UnpaddedLength(data: seq<DigitPair>)
    ensures (|Unpadded(Unpack(data))| + 1) / 2 == |data|
  {}

  lemma PairAt(data: seq<DigitPair>, i: nat)
    requires i < |data|
    ensures var u := Unpadded(Unpack(data));
            2 * i < |u| && u[2 * i] == data[i].high && DigitAt(u, 2 * i + 1) == data[i].low
  {
    var d := Unpack(data);
    assert d[2 * i] == data[i].high && d[2 * i + 1] == data[i].low;
  }

  // ---------- between the two forms ----------

  method SetVarFromNum(num: Numeric, dest: NumericVar)
    modifies dest
    ensures dest.Spare() && fresh(dest.buf) && dest.Magnitude() == num.Magnitude()
    ensures dest.rscale == num.rscale && dest.dscale == num.dscale && dest.sign == num.sign
  {
    var n := |num.data|;
    dest.AllocVar(n * 2);
    dest.weight, dest.rscale, dest.dscale, dest.sign := num.weight, num.rscale, num.dscale, num.sign;
    UnpackDigits(num.data, dest.buf, dest.start);
  }

  /** The unpacking loop of set_var_from_num. */
  method UnpackDigits(data: seq<DigitPair>, buf: array<digit>, start: nat)
    requires start + 2 * |data| <= buf.Length
    modifies buf
    ensures buf[start..start + 2 * |data|] == Unpack(data) && buf[..start] == old(buf[..start])
  {
    ghost var u, front := Unpack(data), buf[..start];
    var i, digit := 0, start;
    while i < |data|
      invariant 0 <= i <= |data| && digit == start + 2 * i
      invariant buf[..start] == front && buf[start..digit] == u[..2 * i]
    {
      var pair := data[i];
      assert u[2 * i] == pair.high && u[2 * i + 1] == pair.low;
      buf[digit] := pair.high;
      buf[digit + 1] := pair.low;
      assert buf[start..digit + 2] == buf[start..digit] + [pair.high, pair.low];
      digit := digit + 2;
      i := i + 1;
    }
    assert u[..2 * |data|] == u;
  }

  /** init_var and set_var_from_num on a new variable. */
  method Unpacked(num: Numeric) returns (v: NumericVar)
    ensures fresh(v) && v.Spare() && fresh(v.buf) && v.Magnitude() == num.Magnitude()
    ensures v.rscale == num.rscale && v.dscale == num.dscale && v.sign == num.sign
  {
    v := new NumericVar();
    SetVarFromNum(num, v);
  }

  /** The openings of the binary operations: both operands unpacked, and a result without digits. */
  method UnpackBoth(num1: Numeric, num2: Numeric) returns (arg1: NumericVar, arg2: NumericVar, result: NumericVar)
    ensures fresh(arg1) && fresh(arg2) && fresh(result) && arg1 != arg2 && result !in {arg1, arg2}
    ensures arg1.Spare() && arg1.Magnitude() == num1.Magnitude()
    ensures arg1.rscale == num1.rscale && arg1.dscale == num1.dscale && arg1.sign == num1.sign
    ensures arg2.Spare() && arg2.Magnitude() == num2.Magnitude()
    ensures arg2.rscale == num2.rscale && arg2.dscale == num2.dscale && arg2.sign == num2.sign
    ensures result.Valid() && result.Magnitude() == Mag([], 0) && result.rscale == 0 && result.dscale == 0
            && result.sign == Pos
  {
    arg1 := Unpacked(num1);
    arg2 := Unpacked(num2);
    result := new NumericVar();
  }

  /** The digits that make_result keeps are the value cut off at rscale. */
  lemma KeptDigits(m: Mag, s: int, n: nat)
    requires n == Max(0, Min(|m.digits|, m.weight + s + 1))
    ensures Mag(m.digits[..n], m.weight).Is(m.At(s), s)
  {
    PrefixShift(m.digits, m.digits[..n], 0, m.weight + s + 1);
  }

  /** The packing loop of make_result. */
  method PackDigits(buf: array<digit>, off: nat, n: nat) returns (data: seq<DigitPair>)
    requires off + n <= buf.Length
    ensures data == Pack(buf[off..off + n])
  {
    ghost var d := buf[off..off + n];
    var b := new DigitPair[(n + 1) / 2](_ => DigitPair(0, 0));
    var i, j := 0, 0;
    while j < n
      invariant 0 <= i <= b.Length && (j == 2 * i || (j == n && j == 2 * i - 1))
      invariant j <= n
      invariant forall k :: 0 <= k < i ==> b[k] == Pack(d)[k]
      modifies b
    {
      var pair := DigitPair(buf[off + j], 0);
      j := j + 1;
      if j < n {
        pair := pair.(low := buf[off + j]);
        j := j + 1;
      }
      b[i] := pair;
      i := i + 1;
    }
    data := b[..];
  }

  lemma EncodesStripped(m: Mag, sign: NumericSign, n: nat, rscale: int, dscale: int, data: seq<DigitPair>)
    requires m.Canon(n, rscale) && data == Pack(m.digits) && sign != NaN && (n == 0 ==> sign == Pos)
    ensures Numeric(ToInt16(m.weight), ToUint16(rscale), sign, ToUint14(dscale), data)
         == Encode(WithSign(n, sign == Neg), rscale, dscale)
  {
    NormUnique(m, n, rscale);
  }

  method MakeResult(v: NumericVar) returns (r: Numeric)
    requires v.sign == NaN || v.Valid()
    ensures v.sign == NaN ==> r == Numeric(0, 0, NaN, 0, [])
    ensures v.sign != NaN ==> r == Encode(v.Signed(v.rscale), v.rscale, v.dscale)
  {
    if v.sign == NaN { return NUMERIC_NAN; }
    ghost var m := v.Magnitude();
    var n := Max(0, Min(v.ndigits, v.weight + v.rscale + 1));
    KeptDigits(m, v.rscale, n);
    var w, sign, data := v.weight, v.sign, [];
    ghost var t := Mag([], w);
    if n > 0 {
      data, n, w, t := StripAndPack(v, m, n, m.At(v.rscale), v.rscale);
    } else {
      AllZero(t, v.rscale);
    }
    StrippedSize(t, m.At(v.rscale), v.rscale);
    if n == 0 {
      w := 0;
      sign := Pos;
      AllZero(Mag([], 0), v.rscale);
    }
    r := Numeric(ToInt16(w), ToUint16(v.rscale), sign, ToUint14(v.dscale), data);
    EncodesStripped(Mag(t.digits, w), sign, m.At(v.rscale), v.rscale, v.dscale, data);
  }

  /** The stripping loops of make_result over the n digits kept, and the packing of the rest. */
  method StripAndPack(v: NumericVar, ghost m: Mag, n: nat, ghost x: nat, ghost s: int)
    returns (data: seq<DigitPair>, n': nat, w: int, ghost t: Mag)
    requires v.Valid() && m == v.Magnitude() && 0 < n <= v.ndigits && Mag(m.digits[..n], m.weight).Is(x, s)
    ensures data == Pack(t.digits) && |t.digits| == n' && t.weight == w && t.Exactly(x, s)
  {
    var off;
    assert v.buf[v.start..v.start + n] == m.digits[..n];
    off, n', w, t := StripExact(v.buf, v.start, n, v.weight, x, s);
    data := PackDigits(v.buf, off, n');
  }

  /** make_result on a variable known to hold n at its own scale. */
  method PackExact(v: NumericVar, ghost n: int, ghost rscale: int, ghost dscale: int) returns (r: Numeric)
    requires v.Holds(n, rscale) && v.rscale == rscale && v.dscale == dscale
    ensures r == Encode(n, rscale, dscale)
  {
    r := MakeResult(v);
  }

  /** Cut toward zero. */
  function CutSigned(n: int, k: int): int
  {
    if n < 0 then -(Cut(-n, k) as int) else Cut(n, k) as int
  }

  /** make_result on a variable that holds n at some other scale: the value is cut off at rscale. */
  method PackCut(v: NumericVar, ghost n: int, ghost s: int, ghost rscale: int, ghost dscale: int) returns (r: Numeric)
    requires v.Holds(n, s) && v.rscale == rscale && v.dscale == dscale
    ensures r == Encode(CutSigned(n, s - rscale), rscale, dscale)
  {
    AtCut(v.Magnitude(), Abs(n), s, rscale);
    CutZero(s - rscale);
    r := MakeResult(v);
  }

  lemma CutZero(k: int)
    ensures Cut(0, k) == 0
  {}
}
