/** The concrete cases of test.ts, stated about the model: first which
    instance each text denotes, then what each operation returns on those
    instances. */
module TestCases {
  import opened Failures
  import opened Decimal
  import opened Rationals
  import opened RatConstructor
  import Integers

  /** Text "a/b" whose pieces are the decimal texts of n and d reads as the
      canonical pair x of n/d. */
  lemma FractionCase(a: string, b: string, n: int, d: int, x: Rat)
    requires a == IntToString(n) && b == IntToString(d)
    requires d != 0 && Valid(x) && x.num * d == n * x.denom
    ensures RatOf(Text(a + "/" + b), None) == Ok(x)
  {
    FractionText(a, b);
    NormalizeCanonical(n, d, x);
  }

  // ---------------------------------------------------------------------------
  // The constructor (test.ts:8-48).

  /** Two integers: 2/3 stays, 1/-4 moves its sign up. */
  lemma IntegerPairs()
    ensures RatOf(Int(2), Some(Int(3))) == Ok(Rat(2, 3))
    ensures RatOf(Int(1), Some(Int(-4))) == Ok(Rat(-1, 4))
  {
    NormalizeCanonical(2, 3, Rat(2, 3));
    NormalizeCanonical(1, -4, Rat(-1, 4));
  }

  /** Fraction texts, including 4/8, which is reduced. */
  lemma FractionTexts()
    ensures RatOf(Text("2/3"), None) == Ok(Rat(2, 3))
    ensures RatOf(Text("-2/3"), None) == Ok(Rat(-2, 3))
    ensures RatOf(Text("4/8"), None) == Ok(Rat(1, 2))
  {
    assert "2/3" == "2" + "/" + "3" && "-2/3" == "-2" + "/" + "3" && "4/8" == "4" + "/" + "8";
    assert IntToString(2) == "2" && IntToString(3) == "3" && IntToString(-2) == "-2";
    assert IntToString(4) == "4" && IntToString(8) == "8";
    FractionCase("2", "3", 2, 3, Rat(2, 3));
    FractionCase("-2", "3", -2, 3, Rat(-2, 3));
    FractionCase("4", "8", 4, 8, Rat(1, 2));
  }

  /** Text that is the decimal text of n reads as the canonical pair x of n/1. */
  lemma IntegerCase(a: string, n: int, x: Rat)
    requires a == IntToString(n) && x == Rat(n, 1)
    ensures RatOf(Text(a), None) == Ok(x)
  {
    IntegerText(a);
    NormalizeCanonical(n, 1, x) by { Integers.GcdSymmetric(n, 1); Integers.GcdZeroLeft(1); }
  }

  /** Integer texts, and the empty text, which reads as zero. */
  lemma IntegerTexts()
    ensures RatOf(Text("23"), None) == Ok(Rat(23, 1))
    ensures RatOf(Text("0"), None) == Ok(Rat(0, 1))
    ensures RatOf(Text(""), None) == Ok(Rat(0, 1))
  {
    assert IntToString(23) == "23";
    IntegerCase("23", 23, Rat(23, 1));
    Constants();
  }

  /** A lone integer is neither an instance nor a string, so `Rat(123)` and
      `Rat(321n)` throw `TypeError`. The texts "123" and "321/1" give the
      instances that test.ts compares them with. */
  lemma IntegerArguments()
    ensures RatOf(Int(123), None) == Err(TypeError)
    ensures RatOf(Int(321), None) == Err(TypeError)
    ensures RatOf(Text("123"), None) == Ok(Rat(123, 1))
    ensures RatOf(Text("321/1"), None) == Ok(Rat(321, 1))
  {
    assert "321/1" == "321" + "/" + "1";
    assert IntToString(321) == "321" && IntToString(1) == "1";
    FractionCase("321", "1", 321, 1, Rat(321, 1));
    assert IntToString(123) == "123";
    IntegerCase("123", 123, Rat(123, 1));
  }

  /** Digits i, '.', digits f read as the canonical pair x of n / 10^|f|,
      where n is the value of the digits i ++ f. */
  lemma DecimalCase(i: string, f: string, n: int, x: Rat)
    requires IsDigits(i) && IsDigits(f)
    requires n == DigitsValue(i) * Pow10(|f|) + DigitsValue(f)
    requires Valid(x) && x.num * Pow10(|f|) == n * x.denom
    ensures RatOf(Text(i + "." + f), None) == Ok(x)
  {
    DecimalValue(i, f);
    NormalizeCanonical(n, Pow10(|f|), x);
  }

  lemma DigitValues()
    ensures IsDigits("2") && DigitsValue("2") == 2
    ensures IsDigits("3") && DigitsValue("3") == 3
    ensures IsDigits("0") && DigitsValue("0") == 0
    ensures IsDigits("") && DigitsValue("") == 0
    ensures IsDigits("23") && DigitsValue("23") == 23
  {
    assert IntToString(23) == "23";
    assert "23"[..1] == "2";
  }

  /** Decimal texts: "2.3" is 23/10, and ".23" and "0.23" are both 23/100. */
  lemma DecimalTexts()
    ensures RatOf(Text("2.3"), None) == Ok(Rat(23, 10))
    ensures RatOf(Text(".23"), None) == Ok(Rat(23, 100))
    ensures RatOf(Text("0.23"), None) == Ok(Rat(23, 100))
  {
    assert "2.3" == "2" + "." + "3" && ".23" == "" + "." + "23" && "0.23" == "0" + "." + "23";
    DigitValues();
    assert Pow10(1) == 10 && Pow10(2) == 100;
    DecimalCase("2", "3", 23, Rat(23, 10));
    DecimalCase("", "23", 23, Rat(23, 100));
    DecimalCase("0", "23", 23, Rat(23, 100));
  }

  /** Two texts, and the two zero denominators: a zero text is truthy and
      reaches the constructor, a zero number is falsy and does not. */
  lemma TwoArguments()
    ensures RatOf(Text("2"), Some(Text("3"))) == Ok(Rat(2, 3))
    ensures RatOf(Text("2"), Some(Text("0"))) == Err(RangeError)
    ensures RatOf(Int(1), Some(Int(0))) == Err(TypeError)
    ensures RatOf(Obj(Rat(3, 4)), None) == Ok(Rat(3, 4))
  {
    assert IntToString(2) == "2" && IntToString(3) == "3";
    NormalizeCanonical(2, 3, Rat(2, 3));
    ZeroDenominatorText("2");
    ZeroSecondArgument(1);
  }

  // ---------------------------------------------------------------------------
  // The operations (test.ts:50-117).

  lemma SignAbsNeg()
    ensures Sign(Rat(2, 3)) == 1 && Sign(Rat(-2, 3)) == -1 && Sign(Rat(0, 1)) == 0
    ensures Abs(Rat(2, 3)) == Rat(2, 3) && Abs(Rat(-2, 3)) == Rat(2, 3)
    ensures Neg(Rat(2, 3)) == Rat(-2, 3) && Neg(Rat(-2, 3)) == Rat(2, 3)
  {
    Constants();
  }

  lemma Inverses()
    ensures Inv(Rat(2, 3)) == Ok(Rat(3, 2))
    ensures Inv(Rat(-3, 2)) == Ok(Rat(-2, 3))
  {
  }

  lemma AddCases()
    ensures Add(Rat(2, 3), Rat(1, 2)) == Rat(7, 6)
    ensures Add(Rat(2, 3), Rat(1, 3)) == Rat(1, 1)
  {
    UnlikeDenominatorsCase();
    LikeDenominatorsCase();
  }

  lemma UnlikeDenominatorsCase()
    ensures Add(Rat(2, 3), Rat(1, 2)) == Rat(7, 6)
  {
    ValueInjective(Add(Rat(2, 3), Rat(1, 2)), Rat(7, 6));
  }

  lemma LikeDenominatorsCase()
    ensures Add(Rat(2, 3), Rat(1, 3)) == Rat(1, 1)
  {
    ValueInjective(Add(Rat(2, 3), Rat(1, 3)), Rat(1, 1));
  }

  lemma SubMulDivCases()
    ensures Sub(Rat(2, 3), Rat(1, 2)) == Rat(1, 6)
    ensures Mul(Rat(2, 3), Rat(1, 2)) == Rat(1, 3)
    ensures Div(Rat(2, 3), Rat(1, 2)) == Ok(Rat(4, 3))
  {
    SubCase();
    MulCase();
    DivCase();
  }

  lemma SubCase()
    ensures Sub(Rat(2, 3), Rat(1, 2)) == Rat(1, 6)
  {
    ValueInjective(Sub(Rat(2, 3), Rat(1, 2)), Rat(1, 6));
  }

  lemma MulCase()
    ensures Mul(Rat(2, 3), Rat(1, 2)) == Rat(1, 3)
  {
    ValueInjective(Mul(Rat(2, 3), Rat(1, 2)), Rat(1, 3));
  }

  lemma DivCase()
    ensures Div(Rat(2, 3), Rat(1, 2)) == Ok(Rat(4, 3))
  {
    ValueInjective(Div(Rat(2, 3), Rat(1, 2)).value, Rat(4, 3));
  }

  lemma CmpCases()
    ensures Cmp(Rat(2, 3), Rat(1, 2)) == 1
    ensures Cmp(Rat(2, 3), Rat(1, 1)) == -1
    ensures Cmp(Rat(2, 3), Rat(2, 3)) == 0
    ensures Cmp(Rat(1, 3), Rat(2, 3)) == -1
    ensures Cmp(Rat(-2, 3), Rat(2, 3)) == -1
  {
  }

  /** Floor truncates: -8/3 gives -2, not -3. */
  lemma FloorCases()
    ensures Floor(Rat(2, 3)) == 0 && Floor(Rat(8, 3)) == 2 && Floor(Rat(-8, 3)) == -2
  {
  }

  /** Powers of 2/3 and of 0, including 0^0 == 1. */
  lemma PowCases()
    ensures Pow(Rat(2, 3), 0) == Ok(Rat(1, 1))
    ensures Pow(Rat(2, 3), 1) == Ok(Rat(2, 3))
    ensures Pow(Rat(0, 1), 1) == Ok(Rat(0, 1))
    ensures Pow(Rat(0, 1), 0) == Ok(Rat(1, 1))
  {
    Constants();
  }

  /** (-8/3)^2 is 64/9 and (-8/3)^-2 is 9/64. */
  lemma SquareCases()
    ensures Pow(Rat(-8, 3), 2) == Ok(Rat(64, 9))
    ensures Pow(Rat(-8, 3), -2) == Ok(Rat(9, 64))
  {
    assert Integers.Power(-8, 2) == 64 && Integers.Power(3, 2) == 9;
    NormalizeCanonical(9, 64, Rat(9, 64));
  }

  lemma ToStringCases()
    ensures ToString(Rat(-8, 3)) == "-8/3" && ToString(Rat(2, 3)) == "2/3"
  {
    assert IntToString(-8) == "-8" && IntToString(3) == "3" && IntToString(2) == "2";
  }
}
