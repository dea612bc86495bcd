# Exact decimal arithmetic

This project models the exact decimal package of `src/apq-2.1/numeric.c` with the storage layout of `src/apq-2.1/numeric.h`, and
proves what each routine computes.

A number has two forms. The working form is a `NumericVar` object: a digit buffer, the place in it where the digits in use begin, their
count, the weight of the first one, two scales and a sign. Its routines fill fresh buffers digit by digit and hand them to the result. The
stored form is a record `Numeric` with two digits to a byte and narrow fields.

The specification language is that of whole numbers. For a digit string and weight, `At(s)` is the magnitude times 10^s cut off to an
integer; `Is(n, s)` says that it is exactly n / 10^s. The stored form of n / 10^r with display scale d is `Encode(n, r, d)`, and every
packed operation is proved to return `Encode` of an integer expression of its operands. Because `Encode` is injective on the numbers that
fit the fields, laws about integers become laws about stored bytes.

| file | contents |
|---|---|
| Decimal.dfy | powers of ten, digit strings, magnitudes, rounding and the stripped form |
| Variables.dfy | the working form, trimming, the carry loop |
| AddSub.dfy, Multiplication.dfy, Division.dfy | the digit-wise routines |
| Packed.dfy, Arithmetic.dfy, Laws.dfy | the stored form, its operations and their algebra |
| Quotients.dfy, Modulo.dfy | numeric_div and numeric_mod |
| SquareRoot.dfy, Roots.dfy | sqrt_var, and the number numeric_sqrt stores |
| Products.dfy, Inverses.dfy | the rounding of mul_var, and the operations that undo a multiplication |
| Rounding.dfy, FloorCeil.dfy | rounding, precision and scale, floor and ceiling |
| Printing.dfy, Literals.dfy, Grammar.dfy, InputOutput.dfy | numeric_out, numeric_in and the grammar of number texts |
| Instances.dfy | whole operations on 12, -12.5 and some texts, down to the bytes and characters |

## Where the code and its promises part

- numeric_div is not always correctly rounded. The number of quotient digits is clamped to one, the finer digit is rounded, and the result is
  then cut off at the result scale. `Quotients.RatioRoundsIff` gives the exact condition, `Quotients.RatioMiss` inputs that meet it.
- numeric_mod truncates a quotient that was rounded first, so (10^40 - 1) mod 10^40 is -1. `Modulo.ModExactIff` gives the exact condition for
  the true remainder, `Modulo.ModMiss` and `Modulo.NinesMiss` the failing operands.
- mul_var rounds one place finer than the scale it is given; at the scale numeric_mul gives it the product is exact all the same. Read at
  another scale its result is correctly rounded for exactly the operands of `Products.ProductRoundsIff`; `Products.ProductMiss` is 0.6 * 1.
- numeric_round and numeric_trunc store at most 1000 decimals: a scale between 1000 and 2000 is rounded or cut off there and then cut off at
  1000. `Rounding.RoundedIff` and `Rounding.TruncatedIff` say when nothing is lost by that, `Rounding.RoundedMiss` is an input that loses.
- numeric_sqrt is not always correctly rounded: it computes eight further places and rounds those. A root less than about 0.75 * 10^-8 of the
  last place below a midpoint is rounded up, and a root from 0.5 to about 0.95 of the last place becomes zero. `Roots.SqrtRoundsIff` gives the exact
  condition, `Roots.RootMiss` inputs: 1 - 10^-34 at 34 decimals is its own rounded root, and one is stored.
- numeric_mod by zero stores zero, not NaN, beside its exception, and leaves the shared scale raised. The zero and negative exits of sqrt_var
  leave it raised by 8.
- A negative number that rounds to zero prints with a dash (`Printing.DashIff`). Printed at a negative display scale, a number that rounds to
  zero keeps all its whole places as zeros (`Printing.GetStrFromVar`).
- strtol skips white space, so `1e 5` is accepted.

These concern the static routines alone; none of the operations modelled here calls them with such operands:

- cmp_var takes a zero that is written with digits for a number: it is not equal to a zero without digits, nor to one of the other sign.
  `AddSub.CmpMissesZeros` shows that these are the only operands it gets wrong. Through it, ceil_var and floor_var take a zero written with
  decimals only for a fraction (`FloorCeil.Fraction`, `FloorCeil.ZeroFraction`). Unpacked and computed values have no leading zeros.
- sqrt_var compares its first value with what the result held before the call. If they are equal it stops there, perhaps too soon
  (`SquareRoot.StaleMiss`); if they are not, an argument below 10^-(2S+1), S being the working scale, ends in Divide_By_Zero instead of zero.
  `SquareRoot.SqrtVar` states both conditions. numeric_sqrt passes a result without digits, with which the iteration always ends where it
  settles; ln_var passes the argument itself.
- mod_var takes the display scale of its operands after it has written the result, so a result that is an operand shows the scale of the
  quotient too; its value is unaffected (`Modulo.ModVar`).

## Model

| member | source | states |
|---|---|---|
| Variables.NumericVar.AllocVar | src/apq-2.1/numeric.c:1356-1363 | a fresh buffer with a zeroed spare digit in front of the digits in use; no other field changes |
| Variables.NumericVar.ZeroVar | src/apq-2.1/numeric.c:1388-1396 | the variable becomes zero with no buffer and both scales kept |
| Variables.NumericVar.FreeVar | src/apq-2.1/numeric.c:1372-1378 | the buffer is gone and the variable is NaN |
| Variables.NumericVar.SetVarFromVar | src/apq-2.1/numeric.c:1552-1565 | a copy with its own buffer and spare digit, also when a variable is copied to itself |
| Variables.PropagateCarry | src/apq-2.1/numeric.c:2341-2350 | the rounding loop adds the carry to the number spelled by the digits, touches no other digit, and stops at the zero guard digit, which it reaches only to set it to one |
| Variables.StripZeros | src/apq-2.1/numeric.c:2361-2368 | stripping zeros off both ends keeps the value at every scale and leaves a non-zero digit at each end |
| AddSub.CmpAbs | src/apq-2.1/numeric.c:2895-2942 | the sign of the difference of two magnitudes, for any digit strings: leading and trailing zeros, unequal weights, no digits at all |
| AddSub.CmpVar | src/apq-2.1/numeric.c:1816-1844 | the order of two signed values, leading zeros or not, for all operands but two zeros, one of them written with digits, that differ in having digits or in sign; the answer wherever an operand has no digits or the signs differ |
| AddSub.CmpMissesZeros | src/apq-2.1/numeric.c:1816-1844 | for those zeros, and only for them, the answer is not the order of the values |
| AddSub.AddAbs | src/apq-2.1/numeric.c:2952-3025 | the sum of what the operands hold at the larger of their scales, stripped; fresh digits, so the result may be an operand |
| AddSub.AddCarry | src/apq-2.1/numeric.c:2994-2996 | after the column loop of add_abs no carry is left, so its Assert cannot fire |
| AddSub.SubAbs | src/apq-2.1/numeric.c:3038-3111 | the difference of the magnitudes at the larger scale when the first is not smaller |
| AddSub.SubBorrow | src/apq-2.1/numeric.c:3080-3082 | after the column loop of sub_abs no borrow is left when the first magnitude is not smaller, so its Assert cannot fire |
| AddSub.AddVar | src/apq-2.1/numeric.c:1854-1964 | the exact signed sum at the larger scale, from the operands as they were before the call even when the result is one or both of them |
| AddSub.SubVar | src/apq-2.1/numeric.c:1974-2087 | the exact signed difference, with the same freedom to alias |
| Division.FillMultiple | src/apq-2.1/numeric.c:2284-2299 | a lazily built table entry is exactly guess times the divisor, and the last carry is zero |
| Division.TrialDigit | src/apq-2.1/numeric.c:2282-2290 | the guess computed from the leading parts is never below the true quotient digit |
| Division.HaveBound | src/apq-2.1/numeric.c:2286-2291 | the leading part of the dividend is one digit before the next is appended and at most two after, which the guess relies on |
| Division.ChooseDigit | src/apq-2.1/numeric.c:2291-2321 | capped at nine and counted down, the guess is the true digit |
| Division.FindDigit | src/apq-2.1/numeric.c:2276-2311 | counting down from the guess stops at the true digit, and the comparison made there tells whether anything is left |
| Division.DivideStep | src/apq-2.1/numeric.c:2284-2336 | one round: total = (quotient so far) * divisor + dividend left, with what is left below the divisor at that place, and the leading part of the dividend tracked exactly |
| Division.DivideLoop | src/apq-2.1/numeric.c:2252-2336 | the loop ends with the quotient digits and remainder of the long division, also through the exact early exit |
| Division.RoundQuotient | src/apq-2.1/numeric.c:2338-2353 | dropping the extra digit rounds half up, and the final carry fits the digits there are |
| Division.DividedRounds | src/apq-2.1/numeric.c:2252-2353 | quotient digits, remainder and extra digit of the long division determine the correctly rounded quotient |
| Division.DivVar | src/apq-2.1/numeric.c:2181-2378 | the quotient of the old operands rounded half away from zero at max(rscale, weight2 - weight1) decimals, exact exits, zero dividend and zero divisor included; the result may be an operand |
| Division.QuotientNearest | src/apq-2.1/numeric.c:2181-2378 | that is the nearest number of so many decimals, a tie away from zero |
| Multiplication.AddRow | src/apq-2.1/numeric.c:2122-2135 | a row adds digit times second factor at its place; every running carry is one digit and no digit further left than the row end is touched |
| Multiplication.MulDigits | src/apq-2.1/numeric.c:2114-2135 | the double loop leaves the exact product of the digit strings, with index 0 still zero |
| Multiplication.RoundProduct | src/apq-2.1/numeric.c:2136-2149 | rounding one place finer than asked, or keeping everything when that place is above the first digit; the carry stops at index 0 |
| Multiplication.MulVar | src/apq-2.1/numeric.c:2097-2172 | the exact product rounded half away from zero at rscale + 1 decimals (kept whole when res_weight + rscale + 2 is negative), from the old operands |
| Products.ProductNearest | src/apq-2.1/numeric.c:2136-2149 | that is the nearest multiple of 10^-(rscale + 1), or the whole product |
| Products.ProductRoundsIff | src/apq-2.1/numeric.c:2136-2149 | cut off at the scale asked for, the product is rounded half away from zero for exactly the operands whose dropped part is not from 0.5 to below 0.95 of the last place |
| Products.ProductMiss | src/apq-2.1/numeric.c:2136-2149 | 0.6 times 1 asked for without decimals reads 0 |
| Packed.SetVarFromNum | src/apq-2.1/numeric.c:1518-1543 | unpacking gives the magnitude, sign and scales of the record behind a zeroed spare digit |
| Packed.MakeResult | src/apq-2.1/numeric.c:1683-1739 | the record of the value cut off toward zero at rscale; NaN gives the NaN record |
| Packed.HighFirst | src/apq-2.1/numeric.c:1726-1735 | the high half of a data byte is the earlier digit, counted by weight |
| Packed.NarrowFields | src/apq-2.1/numeric.c:1721-1724 | weight, scale and display scale keep their low 16, 16 and 14 bits |
| Packed.DecodeEncode | src/apq-2.1/numeric.c:1683-1739 | a packed number is canonical and holds its value and scales, so unpacking what was packed loses nothing |
| Packed.EncodeDecode | src/apq-2.1/numeric.c:1518-1543 | packing the value and scales of a canonical record gives the record back byte for byte |
| Packed.CanonicalUnique | src/apq-2.1/numeric.h:53-61 | the stripped-zeros convention is canonical: equal value and scales mean equal bytes |
| Arithmetic.NumericAdd | src/apq-2.1/numeric.c:729-761 | the exact sum at the larger scales, NaN if an operand is |
| Arithmetic.NumericSub | src/apq-2.1/numeric.c:770-801 | the exact difference at the larger scales, NaN if an operand is |
| Arithmetic.ProductExact | src/apq-2.1/numeric.c:2096-2172 | rounded at rscale1 + rscale2 + 1 decimals and cut at rscale1 + rscale2, a product is still exact |
| Arithmetic.NumericMul | src/apq-2.1/numeric.c:810-850 | the exact product at the summed scales, and global_rscale set to the sum; NaN if an operand is, global_rscale untouched |
| Arithmetic.NumericUminus | src/apq-2.1/numeric.c:349-379 | flipping the sign bits of a number that has digits, and leaving zero alone, packs the negated value; NaN for NaN |
| Arithmetic.NumericCmp | src/apq-2.1/numeric.c:632-715 | -1, 0 or 1 as the first value, read at the larger scale, is below, equal to or above the second; NaN equal to itself, 1 before and -1 after any number |
| Instances.SumOfBoth | src/apq-2.1/numeric.c:729-761 | the bytes of the sum -0.5 of 12 and -12.5 |
| Instances.DifferenceOfBoth | src/apq-2.1/numeric.c:770-801 | the bytes of their difference 24.5 |
| Instances.ProductOfBoth | src/apq-2.1/numeric.c:349-850 | the bytes of the product -150.0 and of the negation 12.5 |
| Arithmetic.OrderAt | src/apq-2.1/numeric.c:677-715 | the order does not depend on the scale the operands are read at |
| Laws.SumIs | src/apq-2.1/numeric.c:729-761 | a sum that fits the fields is canonical and holds the sum of the values |
| Laws.SumCommutes | src/apq-2.1/numeric.c:729-761 | numeric_add is commutative on bytes |
| Laws.SumAssociates | src/apq-2.1/numeric.c:729-761 | numeric_add is associative on bytes when the inner sums fit |
| Laws.ProductCommutes | src/apq-2.1/numeric.c:810-850 | numeric_mul is commutative on bytes |
| Laws.ProductAssociates | src/apq-2.1/numeric.c:810-850 | numeric_mul is associative on bytes when the inner products fit |
| Laws.ProductDistributes | src/apq-2.1/numeric.c:728-850 | numeric_mul distributes over numeric_add on bytes |
| Laws.DifferenceIsSum | src/apq-2.1/numeric.c:770-801 | numeric_sub(a, b) is numeric_add(a, numeric_uminus(b)) on bytes |
| Laws.NegationTwice | src/apq-2.1/numeric.c:349-379 | negating twice gives the same bytes |
| Laws.OrderReflects | src/apq-2.1/numeric.c:677-715 | swapping the operands of numeric_cmp flips its result, NaN included |
| Laws.OrderTransitive | src/apq-2.1/numeric.c:677-715 | the order is transitive, NaN included |
| Laws.OrderTranslates | src/apq-2.1/numeric.c:677-715 | numeric_cmp(a + c, b + c) = numeric_cmp(a, b) |
| Laws.OrderScales | src/apq-2.1/numeric.c:677-850 | numeric_cmp(c * a, c * b) is numeric_cmp(a, b), its reverse or equal, as c is positive, negative or zero |
| Quotients.SelectDivScale | src/apq-2.1/numeric.c:2390-2422 | the display scale is 10, 1000 or the sum of the display scales; the result scale is 2000 or the largest of the sum of the scales, four more than are displayed, and 34 |
| Quotients.NumericDiv | src/apq-2.1/numeric.c:859-902 | the quotient of div_var cut off at that result scale, stored with both scales; NaN for NaN, and NaN with Divide_By_Zero for a zero divisor |
| Quotients.RatioRoundsIff | src/apq-2.1/numeric.c:858-902 | numeric_div is rounded half away from zero at its result scale for exactly the operands outside one family: divisor one place past the scale, quotient from 0.5 to below 0.95 of the last place |
| Quotients.RatioNearest | src/apq-2.1/numeric.c:858-902 | for those operands the stored quotient is the nearest multiple of 10^-scale to the quotient of the values, a tie away from zero, with the sign of the quotient |
| Quotients.RatioRounds | src/apq-2.1/numeric.c:858-902 | in particular whenever weight2 - weight1 is at most the result scale |
| Quotients.RatioMiss | src/apq-2.1/numeric.c:2218-2220 | 6 * 10^w divided by 10^(w+35) is 0.6 of the last place, which rounds to 1, and zero is stored |
| Inverses.RatioOfProduct | src/apq-2.1/numeric.c:858-902 | numeric_div(numeric_mul(p, q), q) is p, for every non-zero q and every p of at most 2000 decimals |
| SquareRoot.NewtonNotBelow | src/apq-2.1/numeric.c:2577-2585 | after one step, from any start, (4X + 1)^2 >= 8 C, C being twice the argument in units of 10^-2S, cut off |
| SquareRoot.GuessFields | src/apq-2.1/numeric.c:2564-2574 | the first value is one digit, by a table of the argument's first digits, at half its weight toward zero |
| SquareRoot.NewtonMoves | src/apq-2.1/numeric.c:2577-2591 | from there an iterate falls, stays, or rises by one and then stays |
| SquareRoot.NewtonFixed | src/apq-2.1/numeric.c:2587-2588 | a value X repeats exactly when 2X^2 - 3X <= C < 2X^2 + X: the condition for the loop to stop |
| SquareRoot.FixedNear | src/apq-2.1/numeric.c:2587-2588 | such a value is above the root by one at most and below it by less than a quarter |
| SquareRoot.NewtonAvoids | src/apq-2.1/numeric.c:2577-2585 | of two neighbours that both repeat, a step leads to the smaller one from nowhere else |
| SquareRoot.StepIs | src/apq-2.1/numeric.c:2577-2585 | one pass through div_var, add_var and div_var computes the integer Newton step at the working scale S; for an argument in the place just below 10^-2S it halves the value, and below that it leaves nothing |
| SquareRoot.SqrtLoop | src/apq-2.1/numeric.c:2575-2591 | the loop ends for every positive argument and any earlier value: at once if the first value is that one, with Divide_By_Zero if everything was cut off to nothing, and else where the step settles |
| SquareRoot.SqrtVar | src/apq-2.1/numeric.c:2528-2604 | zero, negative and positive arguments, any earlier result, what happens to the shared scale in each case, and the closing division by one |
| SquareRoot.StaleMiss | src/apq-2.1/numeric.c:2558-2588 | sqrt_var of 9 at scale 0 into a result that holds 3.125 stops at 3.125, which is not where the step settles |
| Roots.RootIsNear | src/apq-2.1/numeric.c:1028-1067 | the stored root is less than one unit of the last place away from the root of any positive argument |
| Roots.RootIsNearest | src/apq-2.1/numeric.c:1028-1067 | for an argument of at most 2R decimals it is the correctly rounded root or one more: less than half a unit below the root and at most half a unit and 10^-8 above |
| Roots.ExactRoot | src/apq-2.1/numeric.c:1028-1067 | a root that is a whole number of units is found exactly |
| Roots.SqrtRoundsIff | src/apq-2.1/numeric.c:1028-1067 | the stored root is the correctly rounded one for exactly the arguments that are not from 3b/2 below the square of a midpoint b up to that square (in units of the working scale), nor with a root from 0.5 to 0.95 units |
| Roots.RootMiss | src/apq-2.1/numeric.c:1028-1067 | 1 - 10^-k with k decimals, k from 34 to 2000, is its own rounded root, yet one is stored |
| Roots.RootFound | src/apq-2.1/numeric.c:2527-2604 | what sqrt_var leaves for a positive argument, cut off at the result scale, is determined by the correctly rounded root and the distance to the midpoint above it |
| Roots.NumericSqrt | src/apq-2.1/numeric.c:1028-1067 | for every stored number the record of that root, with display scale 10, 1000 or the argument's and scale 2000 or the largest of the argument's, 34 and four more than are displayed; zero stored, and zero and negative arguments left, with the scale raised by 8 |
| Inverses.RootOfSquare | src/apq-2.1/numeric.c:1028-1067 | the record numeric_sqrt stores for a square is that of the absolute value, zero included, for every number of at most 2000 decimals |
| Modulo.ModVar | src/apq-2.1/numeric.c:2431-2471 | x - y * trunc(rounded quotient) of the old operands, whichever variable the result is; which display scale it gets in each case, being read after the result was written; the shared scale restored on success and left at that of the division for a zero divisor |
| Modulo.NumericMod | src/apq-2.1/numeric.c:911-938 | that remainder as stored, with both scales; packed zero with Divide_By_Zero for a zero divisor; NaN for NaN |
| Modulo.ModExactIff | src/apq-2.1/numeric.c:2430-2471 | the stored number is the truncated remainder exactly when the fraction of the quotient does not round up to one |
| Modulo.TrueRemainderIs | src/apq-2.1/numeric.c:2427-2471 | the truncated remainder is the number below the divisor in magnitude, with the sign of the dividend, that differs from it by a whole multiple of the divisor |
| Modulo.ModExactBelow | src/apq-2.1/numeric.c:2430-2471 | so it is for every divisor below 2 * 10^s units of the common scale |
| Modulo.ModMiss | src/apq-2.1/numeric.c:2430-2471 | the bound is sharp: one unit below any larger divisor gives minus one unit |
| Modulo.NinesMiss | src/apq-2.1/numeric.c:2430-2471 | for instance (10^w - 1) mod 10^w is -1 from w = 35 on |
| Rounding.CarryRound | src/apq-2.1/numeric.c:469-493 | rounding in place at digit i: the value is rounded half up, at most one digit is gained, and it goes to the spare digit, so both Asserts hold |
| Rounding.NumericRound | src/apq-2.1/numeric.c:441-513 | half away from zero at 10^-scale for scale clamped to +-2000, both scales stored as 0, 1000 or scale; NaN for NaN |
| Rounding.NumericTrunc | src/apq-2.1/numeric.c:524-563 | toward zero, with the same limits |
| Rounding.RoundedNearest | src/apq-2.1/numeric.c:441-513 | for scales from -2000 to 1000 the stored number is the nearest multiple of 10^-scale, the one further from zero on a tie, on the same side of zero |
| Rounding.RoundedFiner | src/apq-2.1/numeric.c:441-513 | for scales from 1000 to 2000 it is the value rounded there, then cut off toward zero at the 1000th decimal |
| Rounding.ScaleBeyond | src/apq-2.1/numeric.c:456-563 | scales below -2000 and above 2000 give what -2000 and 2000 give, for both routines |
| Rounding.RoundedIff | src/apq-2.1/numeric.c:441-513 | the stored number is the value rounded half away from zero at the clamped scale exactly when that scale is at most 1000 or the rounded value has no digit past the 1000th decimal |
| Rounding.RoundedExact | src/apq-2.1/numeric.c:441-513 | so it is at every scale for numbers of at most 1000 decimals |
| Rounding.RoundedMiss | src/apq-2.1/numeric.c:441-563 | 10^-1500, rounded or truncated at 1500, is stored as zero |
| Rounding.TruncatedToward | src/apq-2.1/numeric.c:524-563 | for scales from -2000 to 2000 the stored number is the multiple of 10^-scale, or of 10^-1000 for a finer scale, that drops less than one such unit and stays on its side of zero |
| Rounding.TruncatedIff | src/apq-2.1/numeric.c:524-563 | it is the value cut off at the clamped scale on the same condition as for rounding |
| Rounding.TruncatedExact | src/apq-2.1/numeric.c:524-563 | so it is at every scale for numbers of at most 1000 decimals |
| Rounding.RoundSettles | src/apq-2.1/numeric.c:440-563 | both routines are idempotent on bytes, and each leaves the other's result alone |
| Instances.RoundedHalf | src/apq-2.1/numeric.c:441-563 | -12.5 rounds to -13 and is cut off to -12 |
| Rounding.RoundFitsBelow | src/apq-2.1/numeric.c:441-513 | a carry can overflow the weight field only from the largest weight |
| Rounding.CheckOverflow | src/apq-2.1/numeric.c:1787-1801 | comparing the true weight with precision - scale finds exactly the values of more than precision digits |
| Rounding.ApplyTypmod | src/apq-2.1/numeric.c:1749-1807 | rounds half up at scale, raises Numeric_Overflow (and makes the variable NaN) exactly when the rounded magnitude is at least 10^(precision - scale), and for a negative precision when it is not zero |
| Rounding.FastPath | src/apq-2.1/numeric.c:286-295 | copying the record and rewriting its scale fields gives the bytes of the slow path, and never hides an overflow |
| Rounding.NumericTypmod | src/apq-2.1/numeric.c:269-310 | numeric(): the number rounded half away from zero at scale, or NaN and Numeric_Overflow exactly when that is not zero and precision is negative or it has more than precision digits; NaN for NaN |
| Rounding.TypmodRounds | src/apq-2.1/numeric.c:268-310 | without overflow it is numeric_round at the same scale, byte for byte, for scales 0 to 1000 |
| FloorCeil.CeilVar | src/apq-2.1/numeric.c:2481-2495 | the whole part, plus one for a positive number with what cmp_var takes for a fraction, leading zeros or not; the result may be the argument |
| FloorCeil.FloorVar | src/apq-2.1/numeric.c:2505-2519 | the whole part, minus one for a negative number with what cmp_var takes for a fraction |
| FloorCeil.FractionIs | src/apq-2.1/numeric.c:2481-2519 | without leading zeros that is a number that is not whole |
| FloorCeil.ZeroFraction | src/apq-2.1/numeric.c:2481-2519 | but the zero written 0.0 with only its decimal counts as one |
| FloorCeil.NumericCeil | src/apq-2.1/numeric.c:572-590 | the mathematical ceiling, also of fractions without whole digits, stored without decimals; NaN for NaN |
| FloorCeil.NumericFloor | src/apq-2.1/numeric.c:600-618 | the mathematical floor, likewise |
| Instances.WholeNumbers | src/apq-2.1/numeric.c:572-618 | the bytes of the ceiling -12 and the floor -13 of -12.5 |
| FloorCeil.FloorIff | src/apq-2.1/numeric.c:600-618 | the floor is the only integer f with f <= x < f + 1 |
| FloorCeil.CeilIff | src/apq-2.1/numeric.c:572-590 | the ceiling is the only integer c with c - 1 < x <= c |
| FloorCeil.FloorOfNegation | src/apq-2.1/numeric.c:571-618 | floor(-x) = -ceil(x), byte for byte |
| Printing.PrintDigits | src/apq-2.1/numeric.c:1609-1660 | the text is sign, digits, point, digits for any display scale, and with its terminator fits the length allocated |
| Printing.GetStrFromVar | src/apq-2.1/numeric.c:1577-1661 | the variable rounded half up at dscale, its places written out from the weight (or the units) down to dscale decimals; without leading zeros in it, exactly the digits of the rounded number, or as many zeros as it had whole places if it rounds to nothing |
| Printing.FixedUnique | src/apq-2.1/numeric.c:1577-1661 | only one digit string of that form spells a given number |
| Printing.NumericOut | src/apq-2.1/numeric.c:224-250 | the text of a stored number: a dash whenever the sign is negative, even if the digits round to zero; NaN for NaN |
| Printing.CharsAre | src/apq-2.1/numeric.c:1630-1649 | each digit is written as the character of the table 0123456789 in its place |
| Instances.PrintedTwelve | src/apq-2.1/numeric.c:224-250 | the stored 12 prints as 12 |
| Instances.PrintedMinus12Point5 | src/apq-2.1/numeric.c:224-250 | the stored -12.5 prints as -12.5 |
| Instances.PrintedTens | src/apq-2.1/numeric.c:1577-1661 | 14 printed at display scale -1 reads 10, at -2 it reads 00 |
| Printing.DashIff | src/apq-2.1/numeric.c:224-250 | the text opens with a dash exactly for the negative numbers, and shows zero for those below half of the last place |
| Literals.ScanMantissa | src/apq-2.1/numeric.c:1434-1457 | the digit loop collects the digits around at most one point and refuses a second point or a missing digit |
| Literals.ValuesAre | src/apq-2.1/numeric.c:1449 | each digit character is read as its place in that table |
| Literals.ClassesAre | src/apq-2.1/numeric.c:1411-1490 | digits are those ten characters, white space the blank and the codes 9 to 13 |
| Literals.SetVarFromStr | src/apq-2.1/numeric.c:1405-1509 | exactly the malformed texts raise Numeric_Format; any other leaves the number read, without leading zeros and with room for a carry |
| Grammar.ReadWritten | src/apq-2.1/numeric.c:1404-1509 | every number the grammar can write is read with its value |
| Grammar.WrittenIfRead | src/apq-2.1/numeric.c:1404-1509 | every text that is read is one the grammar writes |
| Grammar.AcceptedIff | src/apq-2.1/numeric.c:1404-1509 | the scanner accepts exactly the grammar: spaces, sign, digits with at most one point, power of ten up to 1000 either way, spaces |
| InputOutput.NumericIn | src/apq-2.1/numeric.c:187-215 | NaN for that text alone, Numeric_Format exactly for texts outside the grammar, and else the number at its own scale or fitted to precision and scale |
| InputOutput.InputOfLiteral | src/apq-2.1/numeric.c:187-215 | every number the grammar can write is stored with its value at its own scale; with a precision, rounded half away from zero at scale or refused as too large |
| Instances.ReadTwelve | src/apq-2.1/numeric.c:187-215 | the text 12 is stored as 12 |
| Instances.ReadMinus12Point5 | src/apq-2.1/numeric.c:187-215 | so is -1.25E+1 with a space on either side as -12.5; with precision 2 and scale 0 as -13, and with precision 1 it overflows |
| Instances.LargestPower | src/apq-2.1/numeric.c:1473-1480 | 1e 1000 is read |
| Instances.TooLarge | src/apq-2.1/numeric.c:1473-1480 | 1e1001 is refused |
| Instances.NoDigits | src/apq-2.1/numeric.c:1442-1443 | the empty text and a lone point are refused |
| Instances.SecondPoint | src/apq-2.1/numeric.c:1455-1458 | 1.2.3 is refused |
| Instances.SecondSign | src/apq-2.1/numeric.c:1424-1443 | +-1 is refused |
| Instances.SpaceWithin | src/apq-2.1/numeric.c:1488-1491 | 1 2 is refused |
| Instances.NoPowerDigits | src/apq-2.1/numeric.c:1474-1476 | 1e is refused |
| Instances.Refused | src/apq-2.1/numeric.c:187-215 | refused texts raise Numeric_Format and give NaN at any precision and scale |
| InputOutput.PrintThenParse | src/apq-2.1/numeric.c:187-250 | reading back a printed number gives it rounded to its display scale, with no error |
| InputOutput.PrintThenParseRounds | src/apq-2.1/numeric.c:187-250 | up to 1000 decimals that is numeric_round to the display scale, byte for byte |
| InputOutput.PrintThenParseSame | src/apq-2.1/numeric.c:187-250 | a number whose two scales agree survives printing and parsing unchanged, and so does NaN |
| InputOutput.ParseThenFit | src/apq-2.1/numeric.c:187-310 | parsing with a precision and scale is parsing and then numeric() |

## Left out

- SquareRoot.SqrtVar: takes an argument without leading zeros, as unpacked and computed values are, and a result that is not NaN.
- Rounding.RoundedIff: like RoundedNearest, RoundedFiner and RoundSettles, is stated for numbers whose rounded weight fits its 16-bit field (`RoundFits`);
  by `RoundFitsBelow` that can fail only for the largest weight.
- Modulo.ModVar: takes operands without digits finer than their own scale, as unpacked and computed values are, and a divisor without leading
  zeros, as div_var does.
- Packed.Encode: gives the conversions to 16-bit and 14-bit fields for values out of range as well, but the laws on bytes are stated for
  numbers that fit (`InRange`).
- Division.DivVar: takes a divisor whose first digit is not zero, as unpacked and computed values have; a leading zero would make its trial
  divisor zero.
- Packed.Numeric: holds digits 0 to 9 only, so data bytes with half-bytes above 9 cannot be expressed; the sign and display scale bits of
  n_sign_dscale are two fields.
- Literals.Strtol: is the C library function in the C locale on unbounded integers, with ASCII white space and digits; a text is the
  characters before the terminator.
- exp_var, ln_var, log_var, power_var and the operations on them: they need error analysis of transcendental series.
- Memory: malloc, free, leaks, and the width of the `int` and `long` counters.
- numeric_abs, numeric_sign, numeric_uplus, numeric_smaller, numeric_larger, numeric_isnan, the six comparison predicates: one-line consequences of
  the operations above.
- The debug output, the other C files and the Ada interpreter.
