/** The working form of a number, and the routines that allocate, copy and trim it. */
module Variables {
  import opened Decimal
  import opened Magnitudes

  datatype NumericSign = Pos | Neg | NaN

  datatype DecimalException = NoError | NumericFormat | NumericOverflow | UndefinedResult | DivideByZero

  class NumericVar {
    var ndigits: nat
    var weight: int
    var rscale: int
    var dscale: int
    var sign: NumericSign
    /** The allocated digit buffer; the digits in use begin at index start. */
    var buf: array?<digit>
    var start: nat

    ghost predicate Valid()
      reads this
    {
      if buf == null then ndigits == 0 else start + ndigits <= buf.Length
    }

    /** A zeroed spare digit precedes the digits in use. */
    ghost predicate Spare()
      reads this, buf
    {
      Valid() && buf != null && 0 < start && buf[start - 1] == 0
    }

    ghost function Magnitude(): Mag
      requires Valid()
      reads this, buf
    {
      Mag(if buf == null then [] else buf[start..start + ndigits], weight)
    }

    /** The signed value times 10^s, cut off toward zero. */
    ghost function Signed(s: int): int
      requires Valid()
      reads this, buf
    {
      WithSign(Magnitude().At(s), sign == Neg)
    }

    /** The value is exactly n / 10^s, written without leading or trailing zeros. */
    ghost predicate Holds(n: int, s: int)
      reads this, buf
    {
      Valid() && sign != NaN && Magnitude().Exactly(Abs(n), s) && (n > 0 ==> sign == Pos) && (n < 0 ==> sign == Neg)
    }

    constructor ()
      ensures Valid() && buf == null && ndigits == 0 && start == 0
      ensures weight == 0 && rscale == 0 && dscale == 0 && sign == Pos
    {
      ndigits, weight, rscale, dscale, sign, buf, start := 0, 0, 0, 0, Pos, null, 0;
    }

    constructor Constant(d: digit)
      ensures Valid() && buf != null && fresh(buf) && Magnitude() == Mag([d], 0)
      ensures rscale == 0 && dscale == 0 && sign == Pos
    {
      var b := new digit[1](_ => d);
      ndigits, weight, rscale, dscale, sign, buf, start := 1, 0, 0, 0, Pos, b, 0;
    }

    method AllocVar(n: nat)
      modifies this
      ensures Spare() && fresh(buf) && ndigits == n && start == 1
      ensures weight == old(weight) && rscale == old(rscale) && dscale == old(dscale) && sign == old(sign)
    {
      buf := new digit[n + 1];
      buf[0] := 0;
      start := 1;
      ndigits := n;
    }

    method FreeVar()
      modifies this
      ensures buf == null && sign == NaN
    {
      buf := null;
      sign := NaN;
    }

    method ZeroVar()
      modifies this
      ensures Valid() && buf == null && Magnitude() == Mag([], 0) && sign == Pos
      ensures rscale == old(rscale) && dscale == old(dscale)
    {
      buf := null;
      ndigits := 0;
      weight := 0;
      sign := Pos;
    }

    /** The assignments that hand a freshly computed buffer to a result. */
    method SetDigits(b: array<digit>, off: nat, n: nat, w: int, rs: int)
      requires off + n <= b.Length
      modifies this
      ensures Valid() && buf == b && start == off && ndigits == n && weight == w && rscale == rs
      ensures Magnitude() == Mag(b[off..off + n], w)
      ensures dscale == old(dscale) && sign == old(sign)
    {
      buf, start, ndigits, weight, rscale := b, off, n, w, rs;
    }

    method SetSign(s: NumericSign, ghost n: nat, ghost scale: int)
      requires Valid() && Magnitude().Exactly(n, scale) && s != NaN
      modifies this`sign
      ensures sign == s
      ensures Holds(if s == Neg then -(n as int) else n as int, scale)
    {
      ghost var m := Magnitude();
      sign := s;
      assert Magnitude() == m;
    }

    method SetRscale(r: int, ghost n: int, ghost s: int)
      requires Holds(n, s)
      modifies this`rscale
      ensures rscale == r && Holds(n, s)
    {
      ghost var m := Magnitude();
      rscale := r;
      assert Magnitude() == m;
    }

    method SetDscale(d: int, ghost n: int, ghost s: int)
      requires Holds(n, s)
      modifies this`dscale
      ensures dscale == d && Holds(n, s) && Magnitude() == old(Magnitude())
    {
      ghost var m := Magnitude();
      dscale := d;
      assert Magnitude() == m;
    }

    method SetVarFromVar(value: NumericVar)
      requires value.Valid()
      modifies this
      ensures Spare() && fresh(buf)
      ensures Magnitude() == old(value.Magnitude())
      ensures rscale == old(value.rscale) && dscale == old(value.dscale) && sign == old(value.sign)
    {
      var newbuf := new digit[value.ndigits + 1];
      newbuf[0] := 0;
      forall k | 0 <= k < value.ndigits {
        newbuf[1 + k] := value.buf[value.start + k];
      }
      assert value.buf != null ==> newbuf[1..] == value.buf[value.start..value.start + value.ndigits];
      ndigits, weight, rscale, dscale, sign := value.ndigits, value.weight, value.rscale, value.dscale, value.sign;
      buf := newbuf;
      start := 1;
    }
  }

  /** Two magnitudes with the same value at every scale. */
  ghost predicate SameValue(a: Mag, b: Mag)
  {
    forall s :: a.At(s) == b.At(s) && (a.Fits(s) <==> b.Fits(s))
  }

  ghost predicate IsTrim(m: Mag, t: Mag)
  {
    SameValue(m, t) && t.Stripped()
  }

  /** Cutting zeros off either end of a stretch of the buffer keeps its value. */
  lemma TrimSame(b: seq<digit>, off: nat, n: nat, weight: int, off': nat, n': nat)
    requires off <= off' && off' + n' <= off + n <= |b|
    requires forall k :: off <= k < off' || off' + n' <= k < off + n ==> b[k] == 0
    ensures SameValue(Mag(b[off..off + n], weight), Mag(b[off'..off' + n'], weight - (off' - off)))
  {
    var m, t := Mag(b[off..off + n], weight), Mag(b[off'..off' + n'], weight - (off' - off));
    assert forall k :: 0 <= k < |m.digits| ==> m.digits[k] == b[off + k];
    assert forall k :: 0 <= k < |t.digits| ==> t.digits[k] == b[off' + k];
    forall s ensures m.At(s) == t.At(s) && (m.Fits(s) <==> t.Fits(s)) {
      PrefixShift(m.digits, t.digits, off' - off, t.weight + s + 1);
      if t.Fits(s) {
        forall k | 0 <= k < |m.digits| && m.weight + s + 1 <= k ensures m.digits[k] == 0 {
          if off' - off <= k < off' - off + n' { assert t.digits[k - (off' - off)] == 0; }
        }
      }
      if m.Fits(s) {
        forall k | 0 <= k < |t.digits| && t.weight + s + 1 <= k ensures t.digits[k] == 0 {
          assert t.digits[k] == m.digits[k + off' - off];
        }
      }
    }
  }

  /** Skip leading zeros (lowering the weight) and drop trailing zeros. */
  method StripZeros(buf: array<digit>, off: nat, n: nat, weight: int) returns (off': nat, n': nat, weight': int)
    requires off + n <= buf.Length
    ensures off <= off' && off' + n' <= off + n
    ensures IsTrim(Mag(buf[off..off + n], weight), Mag(buf[off'..off' + n'], weight'))
  {
    off', n', weight' := off, n, weight;
    while n' > 0 && buf[off'] == 0
      invariant off <= off' && off' + n' == off + n && weight' == weight - (off' - off)
      invariant forall k :: off <= k < off' ==> buf[k] == 0
    {
      off', weight', n' := off' + 1, weight' - 1, n' - 1;
    }
    while n' > 0 && buf[off' + n' - 1] == 0
      invariant off' + n' <= off + n
      invariant n' > 0 ==> buf[off'] != 0
      invariant forall k :: off' + n' <= k < off + n ==> buf[k] == 0
    {
      n' := n' - 1;
    }
    TrimSame(buf[..], off, n, weight, off', n');
    assert buf[..][off..off + n] == buf[off..off + n] && buf[..][off'..off' + n'] == buf[off'..off' + n'];
  }

  // ---------- carrying into a digit buffer ----------

  /** Adding c in place i-1 of a buffer stretch changes its value by c; a digit 10 wraps to 0 with a carry. */
  lemma CarryNext(d: seq<digit>, lo: nat, hi: nat, j: nat, carry: int, x: digit, carry': int, e: seq<digit>)
    requires lo <= j < hi <= |d| && e == d[j := x] && carry + d[j] as int == 10 * carry' + x as int
    ensures Prefix(e[lo..hi], hi - lo) + carry' * Pow10(hi - j)
         == Prefix(d[lo..hi], hi - lo) + carry * Pow10(hi - j - 1)
  {
    var t := Pow10(hi - j - 1);
    assert e[lo..hi] == d[lo..hi][j - lo := x];
    PrefixUpdate(d[lo..hi], j - lo, x, hi - lo);
    assert Pow10(hi - j) == 10 * t;
    CarryAlgebra(d[j], x, carry, carry', t);
  }

  lemma CarryAlgebra(old_: int, x: int, carry: int, carry': int, t: int)
    requires carry + old_ == 10 * carry' + x
    ensures (x - old_) * t + carry' * (10 * t) == carry * t
  {}

  /** The rounding loops of div_var, mul_var and the rounding routines: add a carry to the
      digits below index i.  A zero digit at index lo takes up what remains. */
  method PropagateCarry(buf: array<digit>, lo: nat, i: nat, carry0: int) returns (j: nat)
    requires lo <= i <= buf.Length && 0 <= carry0 <= 1
    requires carry0 == 1 ==> lo < i && buf[lo] == 0
    modifies buf
    ensures lo <= j <= i && (carry0 == 0 ==> j == i)
    ensures forall k :: 0 <= k < j || i <= k < buf.Length ==> buf[k] == old(buf[k])
    ensures Prefix(buf[lo..i], i - lo) == old(Prefix(buf[lo..i], i - lo)) + carry0
    ensures carry0 == 1 && j == lo ==> buf[lo] == 1
  {
    var carry := carry0;
    j := i;
    ghost var total := Prefix(buf[lo..i], i - lo) + carry0;
    while carry > 0
      invariant lo <= j <= i && 0 <= carry <= 1
      invariant carry0 == 0 ==> carry == 0 && j == i
      invariant carry == 1 ==> lo < j
      invariant carry0 == 1 && j == lo ==> buf[lo] == 1
      invariant forall k :: 0 <= k < j || i <= k < buf.Length ==> buf[k] == old(buf[k])
      invariant Prefix(buf[lo..i], i - lo) + carry * Pow10(i - j) == total
      decreases j
    {
      j := j - 1;
      ghost var d, c := buf[..], carry;
      carry := carry + buf[j] as int;
      buf[j] := carry % 10;
      carry := carry / 10;
      CarryNext(d, lo, i, j, c, buf[j], carry, buf[..]);
    }
  }
}
