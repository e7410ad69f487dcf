# deno_rat: exact rational numbers, modelled in Dafny

`mod.ts` of deno_rat gives exact rational arithmetic on `bigint` pairs.
An instance of `RatImpl` holds a numerator and a denominator, and its
constructor puts them in canonical form:

- it coerces both arguments with `BigInt`;
- it throws `RangeError` on a zero denominator;
- it moves the sign into the numerator;
- it divides both by their gcd.

Every operation (`abs`, `neg`, `inv`, `add`, `sub`, `mul`, `div`, `pow`)
builds its result through that constructor. `sign`, `cmp`, `floor` and
`toString` read the fields. The exported `Rat` function dispatches on its
arguments: a truthy second argument sends both arguments to the
constructor; otherwise an instance is returned as it is, and a string is
parsed by `stringToRat` ("a/b", "i.f" or an integer). Anything else
throws `TypeError`.

This project models that core and proves what it computes:

- `Integers`: the `abs` and `cmp` helpers, truncating `bigint` division
  (`Quot`), `**`, divisibility, and a mathematical gcd with its laws,
  including Euclid's lemma. `ComputeGcd` is the source's gcd loop, proved
  to compute that gcd.
- `Decimal`: what `BigInt` accepts of a string, decimal digit strings and
  their values, the decimal text of a `bigint`, and `String.prototype.split`.
- `Rationals`: the instance as an immutable datatype with its canonical
  form (`Valid`), and the constructor. The constructor appears as a
  function (`Construct`) and as the step-by-step method (`NewRat`), and the
  two are proved equal. Every operation is stated through the real number
  an instance stands for (`Value`), so each result is shown to be the
  canonical pair of the exact sum, product, quotient, power and so on.
- `RationalLaws`: properties that relate several operations: uniqueness of
  the canonical form, involutions, inverses, commutativity, associativity,
  the order of `cmp`, truncation by `floor`, and negative powers.
- `RatConstructor`: `stringToRat`, the `Rat` dispatcher with JavaScript
  truthiness of its second argument, the constants `Rat.zero` and
  `Rat.one`, and the `toString`/parse round trip.
- `TestCases`: the concrete expectations of `test.ts`, proved about the
  model.

The name `floor` suggests the mathematical floor, the greatest integer not
above the value. The code divides two `bigint`s, which truncates toward
zero, and `test.ts:99` expects `Rat("-8/3").floor()` to be `-2`, not `-3`.
The model follows the code: `Rationals.Floor` truncates, and
`RationalLaws.FloorTruncates` states on each side how far the result is
from the value.

## Model

| member | source | states |
|---|---|---|
| Integers.Abs | mod.ts:3 | the result is a or -a, and never negative |
| Integers.Compare | mod.ts:4 | 1, 0 or -1 exactly when a > b, a == b or a < b |
| Integers.Quot | mod.ts:49-50 | `bigint` division truncates toward zero: \|q\|·\|b\| ≤ \|a\| < (\|q\|+1)·\|b\|, and q is positive only when a and b have the same sign, negative only when they differ |
| Integers.Euclid | mod.ts:8-12 | the remainder recursion yields a common divisor of both inputs |
| Integers.Gcd | mod.ts:5-14 | gcd(\|a\|, \|b\|) divides a and b, and is 0 exactly when both are 0 |
| Integers.EuclidGreatest | mod.ts:8-12 | every common divisor of the inputs divides what the loop returns |
| Integers.GcdGreatest | mod.ts:5-14 | every common divisor of a and b divides Gcd(a, b) |
| Integers.GcdZeroLeft | mod.ts:5-14 | gcd(0, d) is \|d\| |
| Integers.GcdSymmetric | mod.ts:5-14 | the gcd does not depend on the order of its arguments |
| Integers.GcdAbs | mod.ts:6-7 | the gcd ignores the signs of its arguments |
| Integers.GcdUnique | mod.ts:5-14 | a common divisor that every common divisor divides is the gcd |
| Integers.GcdScale | mod.ts:5-14 | gcd(m·a, m·b) = m·gcd(a, b) |
| Integers.CoprimeDivides | mod.ts:47-50 | Euclid's lemma: if d divides a·c and is coprime to a, it divides c |
| Integers.GcdOfQuotients | mod.ts:47-50 | dividing both numbers by their gcd leaves a coprime pair |
| Integers.CoprimeMul | mod.ts:106-109 | a product of two numbers coprime to d is coprime to d |
| Integers.CoprimePower | mod.ts:106-109 | powers of a coprime pair stay coprime |
| Integers.Power | mod.ts:108-109 | `**` with a non-negative exponent is 0 exactly when the base is 0 and the exponent positive (so 0 ** 0 is 1), and positive for a positive base |
| Integers.ComputeGcd | mod.ts:5-14 | the loop returns exactly Gcd(a0, b0), a common divisor of both inputs |
| Decimal.ParseBigInt | mod.ts:37-38 | `BigInt(s)` succeeds exactly on integer text; "" is 0, digits give their value, '-' and digits give its negation; other text is a SyntaxError |
| Decimal.IntToString | mod.ts:113 | the decimal text of a `bigint` reads back as that `bigint` and contains no '/' or '.'; it starts with '-' exactly for a negative number, and its digits have no leading zero |
| Decimal.Pow10 | mod.ts:126 | 10 to the power k is at least 1, so it is a valid denominator |
| Decimal.Pow10IsPower | mod.ts:126 | Pow10(k) is the `bigint` power `10n ** k` |
| Decimal.DigitsValueAppend | mod.ts:126 | gluing digit strings i and f gives the value i·10^\|f\| + f |
| Decimal.Split | mod.ts:120 | `split` gives at least one piece, no piece holds the separator, and joining the pieces with it gives back the text |
| Decimal.SplitNoSeparator | mod.ts:120-123 | text without the separator splits into itself alone |
| Decimal.SplitAtFirst | mod.ts:120 | text splits at its first separator, and the rest splits on its own |
| Decimal.SplitJoin | mod.ts:120 | splitting the join of separator-free pieces gives the pieces back |
| Rationals.ToBigInt | mod.ts:37-38 | `BigInt(v)` succeeds exactly on an integer or on integer text; an integer is kept as it is; text gives what `BigInt` reads from it; every failure is a SyntaxError, so an instance is always rejected |
| Rationals.Normalize | mod.ts:40-50 | a zero denominator is a RangeError; otherwise the result is canonical (positive denominator, gcd 1) and its cross product with the input pair agrees, so it denotes n/d |
| Rationals.Construct | mod.ts:36-53 | a failed coercion of the numerator, then of the denominator, is the error thrown; coerced integers with a zero denominator give RangeError; otherwise a canonical pair equal in ratio to the coerced integers |
| Rationals.NewRat | mod.ts:36-53 | the step-by-step constructor (coerce, reject zero, flip signs, divide by the gcd from the loop) returns the same as Construct |
| Rationals.Sign | mod.ts:55-57 | 1, 0 or -1 exactly when the value is positive, zero or negative |
| Rationals.Abs | mod.ts:59-61 | a canonical instance of the absolute value, with the same denominator |
| Rationals.Neg | mod.ts:63-65 | a canonical instance of the negated value: numerator negated, same denominator |
| Rationals.Inv | mod.ts:67-69 | RangeError exactly when the numerator is 0; otherwise a canonical instance of 1/value whose denominator is \|num\| |
| Rationals.Add | mod.ts:71-76 | a canonical instance whose value is the sum |
| Rationals.Sub | mod.ts:78-83 | a canonical instance whose value is the difference |
| Rationals.Mul | mod.ts:85-87 | a canonical instance whose value is the product |
| Rationals.Div | mod.ts:89-91 | RangeError exactly when the divisor is zero; otherwise a canonical instance of the quotient |
| Rationals.Cmp | mod.ts:93-100 | the sign and same-denominator fast paths and the cross product give 1, -1 or 0 exactly when the value is greater, smaller, or the instance is the same |
| Rationals.CompareNumerators | mod.ts:98 | with equal denominators, comparing the numerators gives 1, -1 or 0 exactly when the value is greater, smaller, or the instance is the same |
| Rationals.CompareCross | mod.ts:99 | comparing the cross products gives 1, -1 or 0 exactly when the value is greater, smaller, or the instance is the same |
| Rationals.Floor | mod.ts:102-104 | the truncated quotient: within one below the value for a non-negative value, within one above it for a negative one |
| Rationals.Pow | mod.ts:106-110 | a positive exponent raises both fields; exponent 0 gives 1/1 (also for 0); a negative exponent gives the canonical reciprocal power, and RangeError exactly when the base is 0; the value is value^e |
| Rationals.ToString | mod.ts:112-114 | the text splits at '/' into the decimal texts of numerator and denominator |
| Rationals.InstanceText | mod.ts:112-114 | the "num/denom" text of an instance is never integer text |
| Rationals.ValueInjective | mod.ts:36-53 | two canonical instances with the same value are the same instance |
| Rationals.NormalizeCanonical | mod.ts:36-53 | any pair with the same ratio as a canonical instance normalizes to that instance |
| Rationals.PowerValue | mod.ts:106-109 | the value of a raised pair is the power of the value |
| RationalLaws.NormalizeCanonicalPair | mod.ts:36-53 | constructing from a canonical pair gives that pair back |
| RationalLaws.NormalizeSameValue | mod.ts:36-53 | two pairs construct the same instance exactly when their cross products agree |
| RationalLaws.NormalizeScale | mod.ts:36-53 | scaling both arguments by a non-zero k constructs the same instance |
| RationalLaws.NegInvolution | mod.ts:63-65 | negating twice gives the instance back |
| RationalLaws.AbsOfNeg | mod.ts:59-65 | abs ignores negation and is idempotent |
| RationalLaws.InvInvolution | mod.ts:67-69 | inverting twice gives the instance back |
| RationalLaws.AddZero | mod.ts:71-76 | zero is the identity of add on both sides |
| RationalLaws.AddCommutative | mod.ts:71-76 | add is commutative |
| RationalLaws.AddAssociative | mod.ts:71-76 | add is associative |
| RationalLaws.SubIsAddNeg | mod.ts:78-83 | sub is add of the negation |
| RationalLaws.SubUndoesAdd | mod.ts:71-83 | subtracting y after adding y gives x back |
| RationalLaws.SubSelf | mod.ts:78-83 | x - x is Rat.zero |
| RationalLaws.MulOne | mod.ts:85-87 | one is the identity of mul on both sides |
| RationalLaws.MulCommutative | mod.ts:85-87 | mul is commutative |
| RationalLaws.MulInv | mod.ts:67-69 | a non-zero instance times its inverse is Rat.one |
| RationalLaws.DivIsMulInv | mod.ts:89-91 | div fails exactly when inv of the divisor fails, and is otherwise mul by that inverse |
| RationalLaws.MulUndoesDiv | mod.ts:85-91 | multiplying a quotient by the divisor gives the dividend back |
| RationalLaws.CmpIsCrossSign | mod.ts:93-100 | the fast paths of cmp agree with comparing the cross products |
| RationalLaws.CmpIsSignOfSub | mod.ts:93-100 | cmp is the sign of the difference |
| RationalLaws.CmpAntisymmetric | mod.ts:93-100 | swapping the arguments negates cmp |
| RationalLaws.CmpTransitive | mod.ts:93-100 | cmp orders instances transitively |
| RationalLaws.FloorOfInteger | mod.ts:102-104 | floor of an integer instance is its numerator |
| RationalLaws.FloorTruncates | mod.ts:102-104 | floor rounds toward zero: a negative non-integer value lies strictly between floor - 1 and floor |
| RationalLaws.PowZero | mod.ts:106-110 | x^0 is Rat.one, also for x = 0 |
| RationalLaws.PowOne | mod.ts:106-108 | x^1 is x |
| RationalLaws.PowNegative | mod.ts:106-110 | x^-e is the inverse of x^e for a non-zero x |
| RatConstructor.StringToRat | mod.ts:119-129 | parsing yields a canonical instance or a SyntaxError/RangeError; text without '/' never gives RangeError |
| RatConstructor.Truthy | mod.ts:141 | the falsy arguments of `if (b)` are exactly 0 and "" |
| RatConstructor.RatOf | mod.ts:140-145 | a truthy second argument goes to the constructor; otherwise an instance is returned, a string parsed, and anything else is a TypeError |
| RatConstructor.FractionText | mod.ts:119-128 | "a/b" constructs from the texts a and b |
| RatConstructor.ExtraFractionPiecesIgnored | mod.ts:119-128 | pieces after a second '/' are ignored |
| RatConstructor.ExtraDecimalPiecesIgnored | mod.ts:121-126 | pieces after a second '.' are ignored: "i.f.g" reads as "i.f" |
| RatConstructor.DecimalText | mod.ts:121-126 | "i.f" constructs from the text i ++ f over 10^\|f\| |
| RatConstructor.IntegerText | mod.ts:121-124 | text without '/' or '.' is an integer over 1 |
| RatConstructor.DecimalValue | mod.ts:121-126 | digits "i.f" denote (i·10^\|f\| + f) / 10^\|f\| |
| RatConstructor.DecimalConstruct | mod.ts:126 | the joined digits i ++ f over 10^\|f\| construct the pair (i·10^\|f\| + f, 10^\|f\|) |
| RatConstructor.NegativeDecimalText | mod.ts:121-126 | "-i.f" constructs from the text "-" ++ i ++ f over 10^\|f\| |
| RatConstructor.NegativeDecimalConstruct | mod.ts:126 | the joined text "-" ++ i ++ f over 10^\|f\| constructs the pair (-(i·10^\|f\| + f), 10^\|f\|) |
| RatConstructor.NegativeDecimalValue | mod.ts:121-126 | with a leading '-' the same value is negated |
| RatConstructor.ToStringRoundTrip | mod.ts:112-114 | parsing the text of an instance gives the instance back |
| RatConstructor.ZeroSecondArgument | mod.ts:141-144 | a zero second argument is falsy, so a number alone is a TypeError |
| RatConstructor.EmptySecondText | mod.ts:141-143 | an empty second text is falsy, so the first text is parsed alone |
| RatConstructor.ZeroDenominatorText | mod.ts:140-141 | a "0" second text is truthy, so the constructor throws RangeError |
| RatConstructor.TwoIntegers | mod.ts:141 | two integers with a non-zero second one construct their ratio |
| RatConstructor.InstancePassesThrough | mod.ts:142 | an instance alone is returned unchanged |
| RatConstructor.Constants | mod.ts:148-149 | Rat("0") is 0/1, Rat("1") is 1/1, and Rat("") is 0/1 |
| TestCases.IntegerPairs | test.ts:8-13 | Rat(2, 3) is 2/3 and Rat(1, -4) is -1/4 |
| TestCases.FractionTexts | test.ts:16-24 | "2/3" is 2/3, "-2/3" is -2/3, and "4/8" is reduced to 1/2 |
| TestCases.IntegerTexts | test.ts:18-23 | "23" is 23/1, "0" and "" are 0/1 |
| TestCases.IntegerArguments | test.ts:45-48 | Rat(123) and Rat(321n) throw TypeError; "123" is 123/1 and "321/1" is 321/1 |
| TestCases.DecimalTexts | test.ts:19-21 | "2.3" is 23/10; ".23" and "0.23" are 23/100 |
| TestCases.TwoArguments | test.ts:28-37 | Rat("2", "3") is 2/3, Rat("2", "0") throws RangeError, Rat(1, 0) throws TypeError, an instance passes through |
| TestCases.SignAbsNeg | test.ts:50-64 | the expected sign, abs and neg of 2/3, -2/3 and 0 |
| TestCases.Inverses | test.ts:66-69 | inv of 2/3 is 3/2 and inv of -3/2 is -2/3 |
| TestCases.UnlikeDenominatorsCase | test.ts:72 | 2/3 + 1/2 = 7/6 |
| TestCases.LikeDenominatorsCase | test.ts:73 | 2/3 + 1/3 = 1/1 |
| TestCases.AddCases | test.ts:71-74 | 2/3 + 1/2 = 7/6 and 2/3 + 1/3 = 1, both on instances |
| TestCases.SubCase | test.ts:76-78 | 2/3 - 1/2 = 1/6 |
| TestCases.MulCase | test.ts:80-82 | 2/3 · 1/2 = 1/3 |
| TestCases.DivCase | test.ts:84-86 | (2/3) / (1/2) = 4/3 |
| TestCases.SubMulDivCases | test.ts:76-86 | 2/3 - 1/2 = 1/6, 2/3 · 1/2 = 1/3, (2/3) / (1/2) = 4/3, on instances |
| TestCases.CmpCases | test.ts:88-94 | the expected cmp results of the test pairs, with 1 and "2/3" given as instances |
| TestCases.FloorCases | test.ts:96-100 | floor of 2/3, 8/3 and -8/3 is 0, 2 and -2 |
| TestCases.PowCases | test.ts:102-112 | (2/3)^0 = 1, (2/3)^1 = 2/3, 0^1 = 0, 0^0 = 1 |
| TestCases.SquareCases | test.ts:105-106 | (-8/3)^2 = 64/9 and (-8/3)^-2 = 9/64 |
| TestCases.ToStringCases | test.ts:114-117 | the text of -8/3 and of 2/3 |

## Left out

- General `BigInt` coercion: the model reads strings as an empty text or an optional '-' followed by decimal digits. It does not model surrounding whitespace, a leading '+', `0x`/`0o`/`0b` prefixes, booleans, or non-integral numbers (`BigInt(Math.PI)` throws RangeError). Numbers enter the model only as integers (`Arg.Int`).
- Rationals.Pow: the exponent is an integer. The source's `BigIntLike` exponent goes through `BigInt`, and `a > 0n` compares a string exponent after implicit conversion; neither is modelled.
- Rationals.ToBigInt: an instance given to the constructor is coerced through its `toString` text, which `BigInt` rejects. The JavaScript object-to-primitive protocol is not modelled beyond that.
- `Object.freeze` of instances and of `Rat`: the model's instances are immutable values, so freezing has nothing left to prevent. `Rat.zero` and `Rat.one` are constants.
- `isRat` (mod.ts:117) and `Rat.isRat`: the model tells instances from other arguments by the `Arg` constructor, so no `instanceof` test is needed. The `isRat` tests (test.ts:119-122) are not modelled.
- `Rat(true)` and `Rat(Math.PI)` (test.ts:40-43): with no second argument, neither an instance nor a string, both throw `TypeError` at mod.ts:144 before `BigInt` runs. `Arg` has no boolean or fractional-number case, so the model cannot express these two calls; for an integer the same path is `RatConstructor.ZeroSecondArgument`.
- Operations of `RatImpl` take `Rat` instances only, and mod.ts converts nothing else. Several tests pass other values and do not hold against mod.ts as written. `add("1/3")` and `sub`, `mul`, `div` with `"1/2"` (test.ts:73-85) throw `TypeError`, because a `bigint` is multiplied by `undefined`. `cmp("2/3")` (test.ts:91) returns -1 through the sign path, because `"2/3".sign` is `undefined`. `cmp(1)` (test.ts:90) gives the expected -1 only through that same path. `Rat(123)` and `Rat(321n)` (test.ts:46-47) throw `TypeError` at mod.ts:144, as `TestCases.IntegerArguments` proves. TestCases.AddCases, TestCases.SubMulDivCases and TestCases.CmpCases prove rewritten versions of these tests, with the argument given as the instance its text denotes.
- Error messages (such as "Division by zero") are not modelled; only the error's kind is.
